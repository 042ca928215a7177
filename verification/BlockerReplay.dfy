/** The history of blocking edges (models/charts.c, `blocker_analysis`): the changes are undone to
    before the history and replayed, and each stretch of time in which an edge exists becomes an
    episode. */
module BlockerReplay {
  import opened BitStreams
  import opened BlockingEdges

  /** As the chart shows it: when an edge began, if after the history began, and when it ended. */
  datatype Episode = Episode(edge: Edge, start: Option<int>, end: Option<int>)

  // ----- the specification: stretches of steps

  /** An edge that exists now, and the step it has existed since. */
  datatype Live = Live(edge: Edge, first: nat)

  /** A stretch of steps, from `first` up to but not including `last`. */
  datatype Span = Span(edge: Edge, first: nat, last: nat)

  type Sets = s: seq<set<Edge>> | 0 < |s| witness [{}]

  /** `sets[k]` are the edges after `k` changes; the edge exists from step `first` to before step
      `last`, and did not exist in the step before. */
  ghost predicate Exists(sets: Sets, e: Edge, first: nat, last: nat)
  {
    && first < last <= |sets|
    && (0 < first ==> e !in sets[first - 1])
    && forall k :: first <= k < last ==> e in sets[k]
  }

  ghost predicate Ended(sets: Sets, s: Span)
  {
    Exists(sets, s.edge, s.first, s.last) && s.last < |sets| && s.edge !in sets[s.last]
  }

  ghost function Last(sets: Sets): set<Edge> { sets[|sets| - 1] }

  ghost predicate IsLive(live: seq<Live>, e: Edge) { exists l :: l in live && l.edge == e }

  /** The live edges are the edges of the last step, each once. */
  ghost predicate LiveExactly(sets: Sets, live: seq<Live>)
  {
    && (forall i, j :: 0 <= i < j < |live| ==> live[i].edge != live[j].edge)
    && (forall l :: l in live ==> Exists(sets, l.edge, l.first, |sets|))
    && (forall e :: e in Last(sets) ==> IsLive(live, e))
  }

  /** Each span is a stretch that ended, listed once; and all are there unless some were dropped. */
  ghost predicate SpansExactly(sets: Sets, spans: seq<Span>, complete: bool)
  {
    && (forall i, j :: 0 <= i < j < |spans| ==> spans[i] != spans[j])
    && (forall s :: s in spans ==> Ended(sets, s))
    && (complete ==> forall s :: Ended(sets, s) ==> s in spans)
  }

  // ----- one step on values

  /** The live edges that the next step keeps and the spans of those it ends. */
  ghost predicate Kept(now: set<Edge>, before: seq<Live>, after: seq<Live>)
  {
    && (forall i, j :: 0 <= i < j < |after| ==> after[i].edge != after[j].edge)
    && forall l :: l in after <==> l in before && l.edge in now
  }

  ghost predicate Added(step: nat, now: set<Edge>, before: seq<Live>, after: seq<Live>)
  {
    && (forall i, j :: 0 <= i < j < |after| ==> after[i].edge != after[j].edge)
    && (forall l :: l in after ==> l in before || (l.first == step && l.edge in now && !IsLive(before, l.edge)))
    && (forall l :: l in before ==> l in after)
    && (forall e :: e in now ==> IsLive(after, e))
  }

  lemma ExistsOn(sets: Sets, now: set<Edge>, e: Edge, first: nat)
    ensures first < |sets| ==> (Exists(sets + [now], e, first, |sets| + 1) <==> Exists(sets, e, first, |sets|) && e in now)
    ensures Exists(sets + [now], e, |sets|, |sets| + 1) <==> e in now && e !in Last(sets)
  {
    var more: Sets := sets + [now];
    assert more[|sets|] == now && forall k :: 0 <= k < |sets| ==> more[k] == sets[k];
  }

  lemma EndedOn(sets: Sets, now: set<Edge>, s: Span)
    ensures Ended(sets + [now], s) <==>
      Ended(sets, s) || (s.last == |sets| && Exists(sets, s.edge, s.first, |sets|) && s.edge !in now)
  {
    var more: Sets := sets + [now];
    assert more[|sets|] == now && forall k :: 0 <= k < |sets| ==> more[k] == sets[k];
  }

  lemma LiveNext(sets: Sets, now: set<Edge>, live: seq<Live>, kept: seq<Live>, after: seq<Live>)
    requires LiveExactly(sets, live) && Kept(now, live, kept) && Added(|sets|, now, kept, after)
    ensures LiveExactly(sets + [now], after)
  {
    hide Exists;
    var more: Sets := sets + [now];
    forall l | l in after ensures Exists(more, l.edge, l.first, |more|) {
      ExistsOn(sets, now, l.edge, l.first);
      if l in kept {
        assert l in live;
        ExistsBounds(sets, l.edge, l.first, |sets|);
      } else {
        assert !IsLive(kept, l.edge);
      }
    }
  }

  lemma ExistsBounds(sets: Sets, e: Edge, first: nat, last: nat)
    requires Exists(sets, e, first, last)
    ensures first < last <= |sets| && e in sets[last - 1] && (last == |sets| ==> e in Last(sets))
  {
  }

  /** Two stretches of one edge up to now began at the same step. */
  lemma SameFirst(sets: Sets, e: Edge, first: nat, other: nat)
    requires Exists(sets, e, first, |sets|) && Exists(sets, e, other, |sets|)
    ensures first == other
  {
  }

  /** The spans of the live edges that the next step ends, if all were kept, are those that end. */
  lemma SpansNext(sets: Sets, now: set<Edge>, live: seq<Live>, before: seq<Span>, spans: seq<Span>, was: bool, complete: bool)
    requires LiveExactly(sets, live) && SpansExactly(sets, before, was) && (complete ==> was)
    requires forall i, j :: 0 <= i < j < |spans| ==> spans[i] != spans[j]
    requires forall s :: s in spans ==> s in before || (s.last == |sets| && Live(s.edge, s.first) in live && s.edge !in now)
    requires forall s :: s in before ==> s in spans
    requires complete ==> forall l :: l in live && l.edge !in now ==> Span(l.edge, l.first, |sets|) in spans
    ensures SpansExactly(sets + [now], spans, complete)
  {
    hide Exists, Ended;
    forall s | s in spans ensures Ended(sets + [now], s) {
      EndedOn(sets, now, s);
    }
    if complete {
      forall s | Ended(sets + [now], s) ensures s in spans {
        EndedOn(sets, now, s);
        if !Ended(sets, s) {
          ExistsBounds(sets, s.edge, s.first, |sets|);
          var l :| l in live && l.edge == s.edge;
          SameFirst(sets, s.edge, s.first, l.first);
        }
      }
    }
  }

  ghost function SwapRemoved(live: seq<Live>, j: nat): (left: seq<Live>)
    requires j < |live|
    ensures |left| == |live| - 1
  {
    live[j := live[|live| - 1]][..|live| - 1]
  }

  ghost predicate DistinctEdges(live: seq<Live>) { forall i, j :: 0 <= i < j < |live| ==> live[i].edge != live[j].edge }

  lemma SwapRemovedIs(live: seq<Live>, j: nat)
    requires j < |live| && DistinctEdges(live)
    ensures DistinctEdges(SwapRemoved(live, j))
    ensures forall l :: l in SwapRemoved(live, j) <==> l in live && l != live[j]
    ensures forall i :: 0 <= i < j && i < |live| - 1 ==> SwapRemoved(live, j)[i] == live[i]
  {
    var left, n := SwapRemoved(live, j), |live| - 1;
    assert forall i :: 0 <= i < n ==> left[i] == if i == j then live[n] else live[i];
    forall l | l in live && l != live[j] ensures l in left {
      var i :| 0 <= i < |live| && live[i] == l;
      assert left[if i == n then j else i] == l;
    }
  }

  /** Where the pass that ends edges stands: what is live still, and what has its span. */
  ghost predicate Dropping(now: set<Edge>, step: nat, before: seq<Live>, live: seq<Live>, spans0: seq<Span>, spans: seq<Span>, complete: bool)
  {
    && DistinctEdges(live)
    && (forall l :: l in live ==> l in before)
    && (forall l :: l in before && l.edge in now ==> l in live)
    && (forall s :: s in spans0 ==> s in spans)
    && (forall s :: s in spans ==> s in spans0 || Dropped(now, step, before, live, s))
    && (forall i, j :: 0 <= i < j < |spans| ==> spans[i] != spans[j])
    && (complete ==> forall l :: l in before ==> l in live || Span(l.edge, l.first, step) in spans)
  }

  ghost predicate Dropped(now: set<Edge>, step: nat, before: seq<Live>, live: seq<Live>, s: Span)
  {
    s.last == step && Live(s.edge, s.first) in before && Live(s.edge, s.first) !in live && s.edge !in now
  }

  lemma DropNothing(now: set<Edge>, step: nat, live: seq<Live>, spans: seq<Span>)
    requires DistinctEdges(live) && forall i, j :: 0 <= i < j < |spans| ==> spans[i] != spans[j]
    ensures Dropping(now, step, live, live, spans, spans, true)
  {
  }

  lemma DroppedAll(now: set<Edge>, step: nat, before: seq<Live>, live: seq<Live>, spans0: seq<Span>, spans: seq<Span>, complete: bool)
    requires Dropping(now, step, before, live, spans0, spans, complete) && forall i :: 0 <= i < |live| ==> live[i].edge in now
    ensures Kept(now, before, live)
  {
  }

  lemma DroppingDistinct(now: set<Edge>, step: nat, before: seq<Live>, live: seq<Live>, spans0: seq<Span>, spans: seq<Span>, complete: bool)
    requires Dropping(now, step, before, live, spans0, spans, complete)
    ensures DistinctEdges(live)
  {
  }

  lemma DropNext(now: set<Edge>, step: nat, before: seq<Live>, live: seq<Live>, spans0: seq<Span>, spans: seq<Span>, complete: bool,
                 j: nat, room: bool)
    requires Dropping(now, step, before, live, spans0, spans, complete) && j < |live| && live[j].edge !in now
    requires forall s :: s in spans0 ==> s.last < step
    ensures Dropping(now, step, before, SwapRemoved(live, j), spans0,
                     if room then spans + [Span(live[j].edge, live[j].first, step)] else spans, complete && room)
  {
    hide SwapRemoved;
    SwapRemovedIs(live, j);
    var l, left := live[j], SwapRemoved(live, j);
    var s := Span(l.edge, l.first, step);
    assert s !in spans;
    if room {
      assert forall x :: x in spans + [s] <==> x in spans || x == s;
    }
  }

  /** Where the pass that begins edges stands, after some of the next edges. */
  ghost predicate Adding(step: nat, seen: seq<Edge>, before: seq<Live>, live: seq<Live>)
  {
    && DistinctEdges(live)
    && (forall l :: l in before ==> l in live)
    && (forall l :: l in live ==> l in before || (l.first == step && l.edge in seen && !IsLive(before, l.edge)))
    && (forall e :: e in seen ==> IsLive(live, e))
  }

  lemma AddNext(step: nat, seen: seq<Edge>, before: seq<Live>, live: seq<Live>, e: Edge)
    requires Adding(step, seen, before, live)
    ensures Adding(step, seen + [e], before, if IsLive(live, e) then live else live + [Live(e, step)])
  {
    var more := if IsLive(live, e) then live else live + [Live(e, step)];
    assert forall l :: l in live + [Live(e, step)] <==> l in live || l == Live(e, step);
    forall x | x in seen + [e] ensures IsLive(more, x) {
      if IsLive(live, x) {
        var l :| l in live && l.edge == x;
        assert l in more;
      } else {
        assert x == e && Live(e, step) in more;
      }
    }
  }

  lemma AddNothing(step: nat, live: seq<Live>)
    requires DistinctEdges(live)
    ensures Adding(step, [], live, live)
  {
  }

  lemma AddedAll(step: nat, now: set<Edge>, seen: seq<Edge>, before: seq<Live>, live: seq<Live>)
    requires Adding(step, seen, before, live) && forall e :: e in seen <==> e in now
    ensures Added(step, now, before, live)
  {
  }

  lemma AddingRoom(step: nat, next: seq<Edge>, j: nat, before: seq<Live>, live: seq<Live>)
    requires j < |next| && Adding(step, next[..j], before, live) && !IsLive(live, next[j])
    requires forall l :: l in before ==> l.edge in next
    ensures |live| < |next|
  {
    RoomForOne(live, next, next[j]);
  }

  lemma {:induction false} EdgeCount(live: seq<Live>, edges: set<Edge>)
    requires DistinctEdges(live) && forall l :: l in live ==> l.edge in edges
    ensures |live| <= |edges|
  {
    if live != [] {
      var last := live[|live| - 1];
      forall l | l in live[..|live| - 1] ensures l.edge in edges - {last.edge} {
      }
      EdgeCount(live[..|live| - 1], edges - {last.edge});
    }
  }

  lemma {:induction false} SetSize(s: seq<Edge>)
    ensures |(set e | e in s)| <= |s|
  {
    if s != [] {
      SetSize(s[1..]);
      assert (set e | e in s) == {s[0]} + (set e | e in s[1..]);
    }
  }

  /** The live edges are among the next ones, so the buffer has room for one more of those. */
  lemma RoomForOne(live: seq<Live>, next: seq<Edge>, e: Edge)
    requires DistinctEdges(live) && (forall l :: l in live ==> l.edge in next) && e in next && !IsLive(live, e)
    ensures |live| < |next|
  {
    var edges := set x | x in next;
    SetSize(next);
    EdgeCount(live, edges - {e});
  }

  lemma KeptDistinct(now: set<Edge>, before: seq<Live>, kept: seq<Live>)
    requires Kept(now, before, kept)
    ensures DistinctEdges(kept) && forall l :: l in kept ==> l.edge in now
  {
  }

  lemma DroppedSpans(step: nat, now: set<Edge>, before: seq<Live>, kept: seq<Live>, spans0: seq<Span>, spans: seq<Span>, done: bool)
    requires Dropping(now, step, before, kept, spans0, spans, done) && Kept(now, before, kept)
    ensures forall i, j :: 0 <= i < j < |spans| ==> spans[i] != spans[j]
    ensures forall s :: s in spans ==> s in spans0 || (s.last == step && Live(s.edge, s.first) in before && s.edge !in now)
    ensures forall s :: s in spans0 ==> s in spans
    ensures done ==> forall l :: l in before && l.edge !in now ==> Span(l.edge, l.first, step) in spans
  {
  }

  lemma FirstLive(edges: seq<Edge>, now: set<Edge>, live: seq<Live>)
    requires Distinct(edges) && |live| == |edges| && (forall j :: 0 <= j < |live| ==> live[j] == Live(edges[j], 0))
    requires forall e :: e in edges <==> e in now
    ensures LiveExactly([now], live) && SpansExactly([now], [], true)
  {
    forall e | e in now ensures IsLive(live, e) {
      var i :| 0 <= i < |edges| && edges[i] == e;
      assert live[i] in live;
    }
  }

  lemma {:induction false} FirstCount(edges: seq<Edge>, now: set<Edge>)
    requires Distinct(edges) && forall e :: e in edges <==> e in now
    ensures |edges| == |now| == Begun([now])
  {
    if edges == [] {
      assert now == {};
    } else {
      var n := |edges| - 1;
      forall e ensures e in edges[..n] <==> e in now - {edges[n]} {
        if e in edges[..n] {
          var i :| 0 <= i < n && edges[i] == e;
        }
      }
      FirstCount(edges[..n], now - {edges[n]});
    }
  }

  // ----- the list of episodes

  /** A stretch of steps in which an edge exists, as long as it can be. */
  ghost predicate Whole(sets: Sets, s: Span)
  {
    Exists(sets, s.edge, s.first, s.last) && (s.last == |sets| || s.edge !in sets[s.last])
  }

  /** How many edges the steps after the first bring. */
  ghost function Brought(sets: Sets): nat
    decreases |sets|
  {
    var n := |sets| - 1;
    if n == 0 then 0 else Brought(sets[..n]) + |sets[n] - sets[n - 1]|
  }

  /** How many stretches there are: one for every beginning. */
  ghost function Begun(sets: Sets): nat { |sets[0]| + Brought(sets) }

  lemma BegunNext(sets: Sets, now: set<Edge>)
    ensures Begun(sets + [now]) == Begun(sets) + |now - Last(sets)|
  {
    var more: Sets := sets + [now];
    assert more[..|sets|] == sets;
  }

  lemma {:induction false} LiveCount(live: seq<Live>, edges: set<Edge>)
    requires DistinctEdges(live) && forall e :: e in edges <==> IsLive(live, e)
    ensures |live| == |edges|
  {
    if live == [] {
      assert forall e :: e in edges ==> IsLive(live, e);
      assert edges == {};
    } else {
      var n := |live| - 1;
      var front, rest := live[..n], edges - {live[n].edge};
      assert live[n] in live;
      forall e ensures e in rest <==> IsLive(front, e) {
        if e in rest {
          var l :| l in live && l.edge == e;
          assert l in front;
        }
        if IsLive(front, e) {
          var l :| l in front && l.edge == e;
          assert l in live;
        }
      }
      LiveCount(front, rest);
    }
  }

  /** What a step adds to the live edges. */
  lemma LiveGrows(sets: Sets, now: set<Edge>, before: seq<Live>, kept: seq<Live>, after: seq<Live>)
    requires LiveExactly(sets, before) && Kept(now, before, kept) && LiveExactly(sets + [now], after)
    ensures |after| == |kept| + |now - Last(sets)|
  {
    hide Exists;
    var more: Sets := sets + [now];
    forall l | l in before ensures l.edge in Last(sets) {
      ExistsBounds(sets, l.edge, l.first, |sets|);
    }
    forall l | l in after ensures l.edge in now {
      ExistsBounds(more, l.edge, l.first, |more|);
    }
    var both := Last(sets) * now;
    assert Last(more) == now;
    forall e ensures e in both <==> IsLive(kept, e) {
      if e in both {
        var l :| l in before && l.edge == e;
        assert l in kept;
      }
    }
    LiveCount(kept, both);
    LiveCount(after, now);
    assert now == both + (now - Last(sets));
  }

  /** A stretch as the chart shows it. */
  ghost function Shown(times: seq<int>, s: Span): Episode
  {
    Episode(s.edge,
            if 0 < s.first <= |times| then Some(times[s.first - 1]) else None,
            if 0 < s.last <= |times| then Some(times[s.last - 1]) else None)
  }

  /** The episodes are those of different whole stretches, and of every one of them if `all`. */
  ghost predicate Listing(sets: Sets, times: seq<int>, episodes: seq<Episode>, stretches: seq<Span>, all: bool)
  {
    && |episodes| == |stretches|
    && (forall k :: 0 <= k < |episodes| ==> episodes[k] == Shown(times, stretches[k]))
    && (forall i, j :: 0 <= i < j < |stretches| ==> stretches[i] != stretches[j])
    && (forall s :: s in stretches ==> Whole(sets, s))
    && (all ==> forall s :: Whole(sets, s) ==> s in stretches)
  }

  /** The stretches that have not ended. */
  ghost function OpenSpans(live: seq<Live>, steps: nat): (open: seq<Span>)
    ensures |open| == |live|
  {
    seq(|live|, j requires 0 <= j < |live| => Span(live[j].edge, live[j].first, steps))
  }

  lemma AllStretches(sets: Sets, live: seq<Live>, spans: seq<Span>, complete: bool, open: seq<Span>, j: nat)
    requires LiveExactly(sets, live) && SpansExactly(sets, spans, complete)
    requires |open| == |live| && forall i :: 0 <= i < |live| ==> open[i] == Span(live[i].edge, live[i].first, |sets|)
    requires j <= |live|
    ensures var stretches := spans + open[..j];
      && (forall i, k :: 0 <= i < k < |stretches| ==> stretches[i] != stretches[k])
      && (forall s :: s in stretches ==> Whole(sets, s))
      && (complete && j == |live| ==> forall s :: Whole(sets, s) ==> s in stretches)
  {
    hide Exists;
    var stretches := spans + open[..j];
    forall i, k | 0 <= i < k < |stretches| ensures stretches[i] != stretches[k] {
      if i < |spans| <= k {
        assert stretches[i] in spans;
      } else if |spans| <= i {
        assert live[i - |spans|].edge != live[k - |spans|].edge;
      }
    }
    forall s | s in stretches ensures Whole(sets, s) {
      if s in open[..j] {
        var i :| 0 <= i < j && open[i] == s;
        assert live[i] in live;
      }
    }
    if complete && j == |live| {
      forall s | Whole(sets, s) ensures s in stretches {
        if s.last == |sets| {
          ExistsBounds(sets, s.edge, s.first, s.last);
          var l :| l in live && l.edge == s.edge;
          SameFirst(sets, s.edge, s.first, l.first);
          var i :| 0 <= i < |live| && live[i] == l;
          assert open[i] == s && stretches[|spans| + i] == s;
        } else {
          ExistsBounds(sets, s.edge, s.first, s.last);
          assert Ended(sets, s);
        }
      }
    }
  }

  /** An edge exists at a step exactly when one whole stretch of that edge covers the step. */
  lemma StepsCovered(sets: Sets, e: Edge, k: nat) returns (s: Span)
    requires k < |sets|
    ensures e in sets[k] <==> s.edge == e && Whole(sets, s) && s.first <= k < s.last
    ensures forall r: Span :: r.edge == e && Whole(sets, r) && r.first <= k < r.last ==> r == s
  {
    s := Span(e, 0, 0);
    if e in sets[k] {
      s := StretchAround(sets, e, k, k + 1);
    }
  }

  lemma {:induction false} StretchAround(sets: Sets, e: Edge, first: nat, last: nat) returns (s: Span)
    requires first < last <= |sets| && forall k :: first <= k < last ==> e in sets[k]
    ensures s.edge == e && s.first <= first && last <= s.last && Whole(sets, s)
    decreases first + (|sets| - last)
  {
    if 0 < first && e in sets[first - 1] {
      s := StretchAround(sets, e, first - 1, last);
    } else if last < |sets| && e in sets[last] {
      s := StretchAround(sets, e, first, last + 1);
    } else {
      s := Span(e, first, last);
    }
  }

  /** In a complete list, an edge exists at a step exactly when one listed episode covers the step. */
  lemma EpisodesCover(sets: Sets, times: seq<int>, episodes: seq<Episode>, stretches: seq<Span>, e: Edge, k: nat) returns (i: nat)
    requires Listing(sets, times, episodes, stretches, true) && k < |sets|
    ensures e in sets[k] <==> i < |episodes| && episodes[i].edge == e && stretches[i].first <= k < stretches[i].last
    ensures forall j :: 0 <= j < |episodes| && episodes[j].edge == e && stretches[j].first <= k < stretches[j].last ==> j == i
  {
    hide Exists;
    var s := StepsCovered(sets, e, k);
    i := |episodes|;
    if e in sets[k] {
      i :| 0 <= i < |stretches| && stretches[i] == s;
    }
    forall j | 0 <= j < |episodes| && episodes[j].edge == e && stretches[j].first <= k < stretches[j].last
      ensures j == i
    {
      assert stretches[j] in stretches;
      assert stretches[j] == s;
    }
  }

  ghost predicate InOrder(times: seq<int>) { forall i, j :: 0 <= i < j < |times| ==> times[i] <= times[j] }

  /** How many of some changes in order are done at a time. */
  ghost function StepAt(times: seq<int>, t: int): (k: nat)
    requires InOrder(times)
    ensures k <= |times| && forall i :: 0 <= i < |times| ==> (times[i] <= t <==> i < k)
  {
    var n := |times| - 1;
    if times == [] then 0 else if times[n] <= t then n + 1 else StepAt(times[..n], t)
  }

  predicate Covers(episode: Episode, t: int)
  {
    (episode.start.Some? ==> episode.start.value <= t) && (episode.end.Some? ==> t < episode.end.value)
  }

  /** Read off the chart: when the changes are in order, an edge exists at a time exactly when one
      listed episode of it covers the time. */
  lemma EpisodesAtTime(sets: Sets, times: seq<int>, episodes: seq<Episode>, stretches: seq<Span>, e: Edge, t: int) returns (i: nat)
    requires Listing(sets, times, episodes, stretches, true) && |sets| == |times| + 1 && InOrder(times)
    ensures e in sets[StepAt(times, t)] <==> i < |episodes| && episodes[i].edge == e && Covers(episodes[i], t)
    ensures forall j :: 0 <= j < |episodes| && episodes[j].edge == e && Covers(episodes[j], t) ==> j == i
  {
    hide Exists, InOrder, StepAt;
    var k := StepAt(times, t);
    i := EpisodesCover(sets, times, episodes, stretches, e, k);
    forall j | 0 <= j < |episodes|
      ensures Covers(episodes[j], t) <==> stretches[j].first <= k < stretches[j].last
    {
      assert stretches[j] in stretches;
      ExistsBounds(sets, stretches[j].edge, stretches[j].first, stretches[j].last);
    }
  }

  // ----- counting

  lemma {:induction false} InSequence(edges: set<Edge>) returns (s: seq<Edge>)
    ensures Distinct(s) && forall e :: e in s <==> e in edges
    decreases |edges|
  {
    s := [];
    if edges != {} {
      var e :| e in edges;
      var rest := InSequence(edges - {e});
      s := [e] + rest;
    }
  }

  /** What a step keeps of the live edges, and the stretches it ends. */
  lemma {:induction false} KeepOrEnd(now: set<Edge>, step: nat, live: seq<Live>, spans0: seq<Span>)
      returns (kept: seq<Live>, spans: seq<Span>)
    requires DistinctEdges(live) && (forall i, j :: 0 <= i < j < |spans0| ==> spans0[i] != spans0[j])
    requires forall s :: s in spans0 ==> s.last < step
    ensures Kept(now, live, kept) && |spans| + |kept| == |spans0| + |live|
    ensures forall i, j :: 0 <= i < j < |spans| ==> spans[i] != spans[j]
    ensures forall s :: s in spans <==> s in spans0 || (s.last == step && Live(s.edge, s.first) in live && s.edge !in now)
  {
    if live == [] {
      kept, spans := [], spans0;
    } else {
      var n := |live| - 1;
      var front, l := live[..n], live[n];
      assert forall x :: x in live <==> x in front || x == l;
      var k, s := KeepOrEnd(now, step, front, spans0);
      forall x | x in front ensures x.edge != l.edge {
      }
      if l.edge in now {
        kept, spans := k + [l], s;
      } else {
        kept, spans := k, s + [Span(l.edge, l.first, step)];
        assert Span(l.edge, l.first, step) !in s;
      }
    }
  }

  lemma {:induction false} ListAll(sets: Sets) returns (live: seq<Live>, spans: seq<Span>)
    ensures LiveExactly(sets, live) && SpansExactly(sets, spans, true) && |spans| + |live| == Begun(sets)
    decreases |sets|
  {
    hide Exists, Kept, Begun;
    var n := |sets| - 1;
    var now := sets[n];
    if n == 0 {
      var edges := InSequence(now);
      live, spans := seq(|edges|, j requires 0 <= j < |edges| => Live(edges[j], 0)), [];
      FirstLive(edges, now, live);
      FirstCount(edges, now);
      assert sets == [now];
    } else {
      var before: Sets := sets[..n];
      assert sets == before + [now];
      var l, s := ListAll(before);
      forall x | x in s ensures x.last < n {
        assert Ended(before, x);
      }
      var kept, more := KeepOrEnd(now, n, l, s);
      KeptDistinct(now, l, kept);
      var edges := InSequence(now - Last(before));
      live := kept + seq(|edges|, j requires 0 <= j < |edges| => Live(edges[j], n));
      spans := more;
      NewOnes(before, now, l, kept, edges, live);
      LiveNext(before, now, l, kept, live);
      SpansNext(before, now, l, s, spans, true, true);
      LiveGrows(before, now, l, kept, live);
      BegunNext(before, now);
    }
  }

  lemma NewOnes(sets: Sets, now: set<Edge>, before: seq<Live>, kept: seq<Live>, edges: seq<Edge>, live: seq<Live>)
    requires LiveExactly(sets, before) && Kept(now, before, kept)
    requires Distinct(edges) && forall e :: e in edges <==> e in now - Last(sets)
    requires |live| == |kept| + |edges| && live[..|kept|] == kept
    requires forall j :: 0 <= j < |edges| ==> live[|kept| + j] == Live(edges[j], |sets|)
    ensures Added(|sets|, now, kept, live)
  {
    hide Exists;
    forall l | l in before ensures l.edge in Last(sets) {
      ExistsBounds(sets, l.edge, l.first, |sets|);
    }
    forall l | l in kept ensures l in live && l.edge in Last(sets) {
      var i :| 0 <= i < |kept| && kept[i] == l;
      assert live[i] == l;
    }
    forall l | l in live ensures l in kept || (l.first == |sets| && l.edge in now && !IsLive(kept, l.edge)) {
      var i :| 0 <= i < |live| && live[i] == l;
      if |kept| <= i {
        assert l == Live(edges[i - |kept|], |sets|) && edges[i - |kept|] in edges;
      } else {
        assert kept[i] == l;
      }
    }
    forall e | e in now ensures IsLive(live, e) {
      if e in Last(sets) {
        var l :| l in before && l.edge == e;
        assert l in kept;
      } else {
        assert e in edges;
        var j :| 0 <= j < |edges| && edges[j] == e;
        assert live[|kept| + j] in live;
      }
    }
    forall i, j | 0 <= i < j < |live| ensures live[i].edge != live[j].edge {
      if i < |kept| {
        assert live[i] == kept[i] && kept[i] in kept;
        if |kept| <= j {
          assert edges[j - |kept|] in edges;
        } else {
          assert live[j] == kept[j];
        }
      } else {
        assert edges[i - |kept|] != edges[j - |kept|];
      }
    }
  }

  lemma {:induction false} DistinctSize(s: seq<Span>)
    requires forall i, j :: 0 <= i < j < |s| ==> s[i] != s[j]
    ensures |(set x | x in s)| == |s|
  {
    if s != [] {
      var n := |s| - 1;
      DistinctSize(s[..n]);
      assert (set x | x in s) == (set x | x in s[..n]) + {s[n]};
    }
  }

  /** There are as many whole stretches as beginnings. */
  lemma WholeCount(sets: Sets, stretches: seq<Span>)
    requires forall i, j :: 0 <= i < j < |stretches| ==> stretches[i] != stretches[j]
    requires forall s :: s in stretches <==> Whole(sets, s)
    ensures |stretches| == Begun(sets)
  {
    hide Whole, LiveExactly, SpansExactly, Begun;
    var live, spans := ListAll(sets);
    var open := OpenSpans(live, |sets|);
    AllStretches(sets, live, spans, true, open, |live|);
    assert open[..|live|] == open;
    DistinctSize(stretches);
    DistinctSize(spans + open);
    assert (set x | x in stretches) == (set x | x in spans + open);
  }

  // ----- the replay

  class Replay {
    const active: array<Edge>
    const activeStart: array<int>
    const activeKnown: array<bool>
    var activeCount: nat
    const episodes: array<Episode>
    var episodeCount: nat

    /** The edges after each change so far, and the times of the changes. */
    ghost var sets: Sets
    ghost var times: seq<int>
    ghost var live: seq<Live>
    ghost var spans: seq<Span>
    ghost var complete: bool

    ghost predicate Shaped()
      reads this
    {
      && active.Length == activeStart.Length == activeKnown.Length
      && activeCount <= active.Length && episodeCount <= episodes.Length
      && |live| == activeCount && |spans| == episodeCount
    }

    /** The time a stretch began, when it began with a change. */
    ghost function Began(first: nat): Option<int>
      reads this
    {
      if 0 < first <= |times| then Some(times[first - 1]) else None
    }

    /** The arrays hold the live edges. */
    ghost predicate HoldsLive()
      requires Shaped()
      reads this, active, activeStart, activeKnown
    {
      forall j :: 0 <= j < activeCount ==> HoldsAt(j, live[j])
    }

    ghost predicate HoldsAt(j: nat, l: Live)
      requires j < active.Length == activeStart.Length == activeKnown.Length
      reads this, active, activeStart, activeKnown
    {
      && active[j] == l.edge && l.first <= |times| && activeKnown[j] == (0 < l.first)
      && (0 < l.first ==> activeStart[j] == times[l.first - 1])
    }

    /** The episodes are those of the spans. */
    ghost predicate HoldsSpans()
      requires Shaped()
      reads this, episodes
    {
      forall k :: 0 <= k < episodeCount ==>
        && spans[k].first <= spans[k].last && 0 < spans[k].last <= |times|
        && episodes[k] == Episode(spans[k].edge, Began(spans[k].first), Some(times[spans[k].last - 1]))
    }

    ghost predicate Valid()
      reads this, active, activeStart, activeKnown, episodes
    {
      && Shaped() && HoldsLive() && HoldsSpans() && |sets| == |times| + 1
      && LiveExactly(sets, live) && SpansExactly(sets, spans, complete)
      && (!complete ==> episodeCount == episodes.Length)
      && |spans| + |live| <= Begun(sets) && (complete <==> |spans| + |live| == Begun(sets))
    }

    /** An episode is written while there is room. */
    method Record(j: nat, time: int)
      requires Shaped() && HoldsLive() && HoldsSpans() && j < activeCount && times != [] && time == times[|times| - 1]
      modifies this`episodeCount, this`spans, this`complete, episodes
      ensures Shaped() && HoldsLive() && HoldsSpans()
      ensures if old(episodeCount) < episodes.Length
              then spans == old(spans) + [Span(live[j].edge, live[j].first, |times|)] && complete == old(complete)
              else spans == old(spans) && !complete && episodeCount == episodes.Length
    {
      if episodeCount < episodes.Length {
        var start := if activeKnown[j] then Some(activeStart[j]) else None;
        episodes[episodeCount] := Episode(active[j], start, Some(time));
        spans := spans + [Span(live[j].edge, live[j].first, |times|)];
        episodeCount := episodeCount + 1;
      } else {
        complete := false;
      }
    }

    /** The last edge takes the place of one that ended. */
    method Remove(j: nat)
      requires Shaped() && HoldsLive() && HoldsSpans() && j < activeCount
      modifies this`activeCount, this`live, active, activeStart, activeKnown
      ensures Shaped() && HoldsLive() && HoldsSpans() && live == SwapRemoved(old(live), j)
    {
      active[j] := active[activeCount - 1];
      activeStart[j] := activeStart[activeCount - 1];
      activeKnown[j] := activeKnown[activeCount - 1];
      activeCount := activeCount - 1;
      live := SwapRemoved(live, j);
    }

    /** The edges that the change took away end. */
    method DropEnded(next: array<Edge>, nextCount: nat, time: int, ghost now: set<Edge>)
      requires Shaped() && HoldsLive() && HoldsSpans() && times != [] && time == times[|times| - 1]
      requires next != active && nextCount <= next.Length && forall e :: e in next[..nextCount] <==> e in now
      requires DistinctEdges(live) && (forall s :: s in spans ==> s.last < |times|) && (!complete ==> episodeCount == episodes.Length)
      requires forall i, j :: 0 <= i < j < |spans| ==> spans[i] != spans[j]
      modifies this`activeCount, this`episodeCount, this`live, this`spans, this`complete
      modifies active, activeStart, activeKnown, episodes
      ensures Shaped() && HoldsLive() && HoldsSpans() && Kept(now, old(live), live)
      ensures exists done :: Dropping(now, |times|, old(live), live, old(spans), spans, done) && (complete <==> done && old(complete))
      ensures !complete ==> episodeCount == episodes.Length
      ensures |spans| + |live| <= |old(spans)| + |old(live)|
      ensures old(complete) ==> (complete <==> |spans| + |live| == |old(spans)| + |old(live)|)
    {
      hide Replay.HoldsLive, Replay.HoldsSpans, SwapRemoved, Dropping;
      ghost var before, spans0, done := live, spans, true;
      DropNothing(now, |times|, live, spans);
      var j := 0;
      while j < activeCount
        invariant Shaped() && HoldsLive() && HoldsSpans()
        invariant Dropping(now, |times|, before, live, spans0, spans, done)
        invariant j <= activeCount && forall i :: 0 <= i < j ==> live[i].edge in now
        invariant (complete <==> done && old(complete)) && (!complete ==> episodeCount == episodes.Length)
        invariant |spans| + |live| <= |spans0| + |before| && (done <==> |spans| + |live| == |spans0| + |before|)
        decreases activeCount - j
      {
        assert active[j] == live[j].edge by { LiveAt(j); }
        var k := FindEdge(next, nextCount, active[j]);
        if k == nextCount {
          DroppingDistinct(now, |times|, before, live, spans0, spans, done);
          DropNext(now, |times|, before, live, spans0, spans, done, j, episodeCount < episodes.Length);
          done := done && episodeCount < episodes.Length;
          SwapRemovedIs(live, j);
          Record(j, time);
          Remove(j);
        } else {
          j := j + 1;
        }
      }
      DroppedAll(now, |times|, before, live, spans0, spans, done);
    }

    lemma LiveAt(j: nat)
      requires Shaped() && HoldsLive() && j < activeCount
      ensures active[j] == live[j].edge
    {
    }

    /** The edges that the change brought begin. */
    method AddNew(next: array<Edge>, nextCount: nat, time: int, ghost now: set<Edge>)
      requires Shaped() && HoldsLive() && HoldsSpans() && times != [] && time == times[|times| - 1]
      requires next != active && nextCount <= next.Length && forall e :: e in next[..nextCount] <==> e in now
      requires Distinct(next[..nextCount]) && nextCount <= active.Length
      requires DistinctEdges(live) && forall l :: l in live ==> l.edge in now
      modifies this`activeCount, this`live, active, activeStart, activeKnown
      ensures Shaped() && HoldsLive() && HoldsSpans() && Added(|times|, now, old(live), live)
    {
      hide Replay.HoldsLive, Replay.HoldsSpans, Adding, IsLive;
      ghost var before, edges := live, next[..nextCount];
      AddNothing(|times|, live);
      for j := 0 to nextCount
        invariant Shaped() && HoldsLive() && HoldsSpans()
        invariant Adding(|times|, edges[..j], before, live) && next[..nextCount] == edges
      {
        HeldEdges();
        var e := next[j];
        var k := FindEdge(active, activeCount, e);
        assert edges[..j + 1] == edges[..j] + [e];
        AddNext(|times|, edges[..j], before, live, e);
        if k == activeCount {
          AddingRoom(|times|, edges, j, before, live);
          Append(e, time);
        }
      }
      assert edges[..nextCount] == edges;
      AddedAll(|times|, now, edges, before, live);
    }

    lemma HeldEdges()
      requires Shaped() && HoldsLive()
      ensures forall e :: e in active[..activeCount] <==> IsLive(live, e)
    {
      forall e ensures e in active[..activeCount] <==> IsLive(live, e) {
        if e in active[..activeCount] {
          var i :| 0 <= i < activeCount && active[i] == e;
          assert HoldsAt(i, live[i]) && live[i] in live;
        }
        if IsLive(live, e) {
          var l :| l in live && l.edge == e;
          var i :| 0 <= i < |live| && live[i] == l;
          assert HoldsAt(i, live[i]) && active[..activeCount][i] == e;
        }
      }
    }

    method Append(e: Edge, time: int)
      requires Shaped() && HoldsLive() && HoldsSpans() && times != [] && time == times[|times| - 1] && activeCount < active.Length
      modifies this`activeCount, this`live, active, activeStart, activeKnown
      ensures Shaped() && HoldsLive() && HoldsSpans() && live == old(live) + [Live(e, |times|)]
    {
      active[activeCount] := e;
      activeStart[activeCount] := time;
      activeKnown[activeCount] := true;
      activeCount := activeCount + 1;
      live := live + [Live(e, |times|)];
    }

    /** The first edges, whose beginnings nobody saw. */
    constructor (edges: array<Edge>, n: nat, capacity: nat, ghost now: set<Edge>)
      requires n <= edges.Length && Distinct(edges[..n]) && forall e :: e in edges[..n] <==> e in now
      ensures Valid() && complete && sets == [now] && times == [] && episodes.Length == capacity
      ensures active == edges && fresh(activeStart) && fresh(activeKnown) && fresh(episodes)
    {
      active, activeCount := edges, n;
      activeStart := new int[edges.Length](_ => 0);
      activeKnown := new bool[edges.Length](_ => false);
      episodes := new Episode[capacity];
      episodeCount := 0;
      sets, times := [now], [];
      live := seq(n, j requires 0 <= j < n && n <= edges.Length reads edges => Live(edges[j], 0));
      spans, complete := [], true;
      new;
      FirstLive(edges[..n], now, live);
      FirstCount(edges[..n], now);
    }

    /** The time of the next change. */
    ghost method Tick(time: int, now: set<Edge>)
      requires Valid()
      modifies this`times, this`sets
      ensures Shaped() && HoldsLive() && HoldsSpans() && times == old(times) + [time] && sets == old(sets) + [now]
      ensures DistinctEdges(live) && (forall s :: s in spans ==> s.last < |times|)
      ensures forall i, j :: 0 <= i < j < |spans| ==> spans[i] != spans[j]
    {
      times, sets := times + [time], sets + [now];
      forall k | 0 <= k < episodeCount ensures 0 < spans[k].last < |times| {
      }
      forall j | 0 <= j < activeCount ensures HoldsAt(j, live[j]) {
        assert old(HoldsAt(j, live[j]));
      }
    }

    /** One change, after which the edges are those in `next`. */
    method Step(next: array<Edge>, nextCount: nat, time: int, ghost now: set<Edge>)
      requires Valid() && next != active && nextCount <= next.Length && nextCount <= active.Length
      requires Distinct(next[..nextCount]) && forall e :: e in next[..nextCount] <==> e in now
      modifies this, active, activeStart, activeKnown, episodes
      ensures Valid() && sets == old(sets) + [now] && times == old(times) + [time]
      ensures complete ==> old(complete)
      ensures unchanged(next)
    {
      hide Replay.HoldsLive, Replay.HoldsSpans, LiveExactly, SpansExactly, Dropping, Kept, Added, Begun;
      ghost var before, spans0, was := live, spans, complete;
      Tick(time, now);
      DropEnded(next, nextCount, time, now);
      ghost var kept := live;
      ghost var done :| Dropping(now, |times|, before, kept, spans0, spans, done) && (complete <==> done && was);
      KeptDistinct(now, before, kept);
      AddNew(next, nextCount, time, now);
      LiveNext(old(sets), now, before, kept, live);
      LiveGrows(old(sets), now, before, kept, live);
      BegunNext(old(sets), now);
      DroppedSpans(|times|, now, before, kept, spans0, spans, done);
      SpansNext(old(sets), now, before, spans0, spans, was, complete);
    }

    /** One edge that still exists becomes an episode without an end. */
    method WriteOpen(j: nat)
      requires active.Length == activeStart.Length == activeKnown.Length && j < active.Length && j < |live| && HoldsAt(j, live[j])
      requires |sets| == |times| + 1 && episodeCount < episodes.Length
      modifies this`episodeCount, episodes
      ensures episodeCount == old(episodeCount) + 1
      ensures episodes[..episodeCount] == old(episodes[..episodeCount]) + [Shown(times, Span(live[j].edge, live[j].first, |sets|))]
    {
      var start := if activeKnown[j] then Some(activeStart[j]) else None;
      episodes[episodeCount] := Episode(active[j], start, None);
      episodeCount := episodeCount + 1;
    }

    /** The edges that still exist become episodes, while there is room. */
    method Finish() returns (all: seq<Episode>, ghost stretches: seq<Span>)
      requires Valid()
      modifies this`episodeCount, episodes
      ensures Listing(sets, times, all, stretches, complete && |stretches| == |spans| + |live|)
      ensures |stretches| <= |spans| + |live|
      ensures |stretches| < |spans| + |live| || !complete ==> |all| == episodes.Length
      ensures |all| == |stretches| <= episodes.Length
      ensures complete && |stretches| == |spans| + |live| <==> Begun(sets) <= episodes.Length
      ensures Begun(sets) <= episodes.Length ==> |stretches| == Begun(sets)
    {
      hide LiveExactly, SpansExactly, Whole, Shown, Replay.HoldsLive, Replay.HoldsSpans;
      ghost var open := OpenSpans(live, |sets|);
      ListedSpans();
      var j := 0;
      all := episodes[..episodeCount];
      stretches := spans;
      while j < activeCount && episodeCount < episodes.Length
        invariant j <= activeCount && episodeCount == |spans| + j <= episodes.Length && stretches == spans + open[..j]
        invariant forall i :: 0 <= i < activeCount ==> HoldsAt(i, live[i])
        invariant all == episodes[..episodeCount] && forall k :: 0 <= k < |all| ==> all[k] == Shown(times, stretches[k])
        modifies this`episodeCount, episodes
      {
        WriteOpen(j);
        assert open[..j + 1] == open[..j] + [open[j]];
        stretches := stretches + [open[j]];
        all := episodes[..episodeCount];
        j := j + 1;
      }
      AllStretches(sets, live, spans, complete, open, j);
    }

    lemma ListedSpans()
      requires Valid()
      ensures forall k :: 0 <= k < episodeCount ==> episodes[k] == Shown(times, spans[k])
      ensures forall j :: 0 <= j < activeCount ==> HoldsAt(j, live[j])
    {
      forall k | 0 <= k < episodeCount ensures episodes[k] == Shown(times, spans[k]) {
        assert spans[k] in spans;
      }
    }
  }

  // ----- the chart

  predicate Counts(c: Change, now: int) { c.at.Some? && c.at.value <= now }

  ghost function Pick(c: Change, now: int): seq<Change> { if Counts(c, now) then [c] else [] }

  /** The changes the chart replays. */
  ghost function Relevant(changes: seq<Change>, now: int): seq<Change>
  {
    if changes == [] then []
    else Pick(changes[0], now) + Relevant(changes[1..], now)
  }

  /** The states before some changes. */
  ghost function Rewound(states: seq<BlockState>, changes: seq<Change>, pool: seq<Dependency>): (before: seq<BlockState>)
    ensures |before| == |states|
    decreases |changes|
  {
    if changes == [] then states
    else Rewound(Apply(states, changes[|changes| - 1], pool, false), changes[..|changes| - 1], pool)
  }

  /** The states after each of some changes, the start first. */
  ghost function Replayed(states: seq<BlockState>, changes: seq<Change>, pool: seq<Dependency>): (history: seq<seq<BlockState>>)
    ensures |history| == |changes| + 1
  {
    if changes == [] then [states]
    else
      var before := Replayed(states, changes[..|changes| - 1], pool);
      before + [Apply(before[|changes| - 1], changes[|changes| - 1], pool, true)]
  }

  /** The edges of some states. */
  ghost function EdgeSet(states: seq<BlockState>): set<Edge>
  {
    set i, j | 0 <= i < |states| && 0 <= j < |states[i].dependencies| && EdgeOf(states, i, j).Some?
      :: EdgeOf(states, i, j).value
  }

  lemma EdgeSetIs(states: seq<BlockState>)
    ensures forall e :: e in EdgeSet(states) <==> HasEdge(states, e)
  {
    hide EdgeOf;
    forall e ensures e in EdgeSet(states) <==> HasEdge(states, e) {
      if e in EdgeSet(states) {
        var i, j :| 0 <= i < |states| && 0 <= j < |states[i].dependencies| && EdgeOf(states, i, j) == Some(e);
        assert Makes(states, i, j, e);
      }
      if HasEdge(states, e) {
        var i: nat, j: nat :| Makes(states, i, j, e);
        assert EdgeOf(states, i, j).value == e;
      }
    }
  }

  ghost function EdgeSets(history: seq<seq<BlockState>>): (sets: Sets)
    requires 0 < |history|
    ensures |sets| == |history|
  {
    seq(|history|, k requires 0 <= k < |history| => EdgeSet(history[k]))
  }

  ghost function Times(changes: seq<Change>): (times: seq<int>)
    ensures |times| == |changes|
  {
    seq(|changes|, k requires 0 <= k < |changes| => if changes[k].at.Some? then changes[k].at.value else 0)
  }

  lemma {:induction false} RelevantNext(changes: seq<Change>, c: Change, now: int)
    ensures Relevant(changes + [c], now) == Relevant(changes, now) + Pick(c, now)
  {
    hide Pick;
    if changes == [] {
      assert [c][1..] == [] && [] + [c] == [c];
      assert Relevant([c], now) == Pick(c, now) + [];
    } else {
      assert (changes + [c])[0] == changes[0] && (changes + [c])[1..] == changes[1..] + [c];
      RelevantNext(changes[1..], c, now);
      Associative(Pick(changes[0], now), Relevant(changes[1..], now), Pick(c, now));
    }
  }

  lemma RewoundNext(states: seq<BlockState>, changes: seq<Change>, c: Change, pool: seq<Dependency>)
    ensures Rewound(states, changes + [c], pool) == Rewound(Apply(states, c, pool, false), changes, pool)
  {
    hide Apply;
    assert (changes + [c])[..|changes|] == changes;
  }

  lemma ReplayedNext(states: seq<BlockState>, changes: seq<Change>, c: Change, pool: seq<Dependency>)
    ensures var before := Replayed(states, changes, pool);
      var after := Apply(before[|changes|], c, pool, true);
      && Replayed(states, changes + [c], pool) == before + [after]
      && EdgeSets(before + [after]) == EdgeSets(before) + [EdgeSet(after)]
      && (c.at.Some? ==> Times(changes + [c]) == Times(changes) + [c.at.value])
  {
    hide Apply, EdgeSet;
    assert (changes + [c])[..|changes|] == changes;
  }

  /** The rewinding loop. */
  method Rewind(states: array<BlockState>, changes: seq<Change>, pool: seq<Dependency>, now: int)
    modifies states
    ensures states[..] == Rewound(old(states[..]), Relevant(changes, now), pool)
  {
    hide Relevant, Rewound, Apply;
    ghost var cards := states[..];
    var i := |changes|;
    assert changes[..i] == changes;
    while i > 0
      invariant i <= |changes|
      invariant Rewound(states[..], Relevant(changes[..i], now), pool) == Rewound(cards, Relevant(changes, now), pool)
    {
      i := i - 1;
      ghost var past := Relevant(changes[..i], now);
      assert changes[..i + 1] == changes[..i] + [changes[i]];
      RelevantNext(changes[..i], changes[i], now);
      if Counts(changes[i], now) {
        RewoundNext(states[..], past, changes[i], pool);
        ApplyChange(states, changes[i], pool, false);
      } else {
        assert past + [] == past;
      }
    }
    NoChanges(states[..], changes[..0], pool, now);
  }

  /** Where the replay stands after some changes. */
  ghost predicate At(replay: Replay, states: seq<BlockState>, start: seq<BlockState>, past: seq<Change>, pool: seq<Dependency>)
    reads replay
  {
    var history := Replayed(start, past, pool);
    replay.sets == EdgeSets(history) && replay.times == Times(past) && states == history[|past|]
  }

  /** One round of the replaying loop. */
  method ReplayChange(replay: Replay, states: array<BlockState>, next: array<Edge>, c: Change, pool: seq<Dependency>, now: int,
                      ghost start: seq<BlockState>, ghost past: seq<Change>)
    requires replay.Valid() && At(replay, states[..], start, past, pool) && |start| == states.Length
    requires replay.active != next && next.Length == replay.active.Length == DEPENDENCIES * states.Length + 1
    modifies replay, replay.active, replay.activeStart, replay.activeKnown, replay.episodes, states, next
    ensures replay.Valid() && At(replay, states[..], start, past + Pick(c, now), pool)
  {
    hide Replayed, Apply, EdgeSet, EdgeSets, HasEdge, Times, Replay.HoldsLive, Replay.HoldsSpans, At, LiveExactly, SpansExactly,
      Begun;
    if Counts(c, now) {
      ghost var before := states[..];
      ApplyChange(states, c, pool, true);
      var nextCount := Edges(states, next);
      AtNext(replay, before, start, past, pool, c);
      EdgeSetIs(states[..]);
      replay.Step(next, nextCount, c.at.value, EdgeSet(states[..]));
      AtAfter(replay, states[..], start, past + [c], pool);
    } else {
      assert past + [] == past;
    }
  }

  /** `blocker_analysis` up to its list of episodes. All are there exactly when the changes bring no
      more edges than the list has room for beyond those of the start; otherwise the list is full. */
  method BlockerAnalysis(cards: seq<BlockState>, changes: seq<Change>, pool: seq<Dependency>, now: int)
    returns (episodes: seq<Episode>, ghost stretches: seq<Span>, ghost all: bool)
    ensures var relevant := Relevant(changes, now);
      Listing(EdgeSets(Replayed(Rewound(cards, relevant, pool), relevant, pool)), Times(relevant), episodes, stretches, all)
    ensures var relevant := Relevant(changes, now);
      var sets := EdgeSets(Replayed(Rewound(cards, relevant, pool), relevant, pool));
      && (all <==> Brought(sets) <= 4 * |changes| + 16)
      && |episodes| == if all then Begun(sets) else |sets[0]| + 4 * |changes| + 16
  {
    hide Relevant, Rewound, Replayed, EdgeSet, EdgeSets, HasEdge, Listing, Times, Replay.Valid, At, Brought;
    var count := |cards|;
    var states := new BlockState[count](i requires 0 <= i < count => cards[i]);
    assert states[..] == cards;
    Rewind(states, changes, pool, now);
    ghost var start := states[..];
    var active := new Edge[DEPENDENCIES * count + 1];
    var next := new Edge[DEPENDENCIES * count + 1];
    var n := Edges(states, active);
    EdgeSetIs(start);
    FirstCount(active[..n], EdgeSet(start));
    var replay := new Replay(active, n, n + 4 * |changes| + 16, EdgeSet(start));
    AtStart(replay, start, changes[..0], pool, now);
    for j := 0 to |changes|
      invariant replay.Valid() && At(replay, states[..], start, Relevant(changes[..j], now), pool)
      modifies replay, replay.active, replay.activeStart, replay.activeKnown, replay.episodes, states, next
    {
      assert changes[..j + 1] == changes[..j] + [changes[j]];
      RelevantNext(changes[..j], changes[j], now);
      ReplayChange(replay, states, next, changes[j], pool, now, start, Relevant(changes[..j], now));
    }
    assert changes[..|changes|] == changes;
    AtEnd(replay, states[..], start, Relevant(changes, now), pool);
    FirstOfHistory(start, Relevant(changes, now), pool);
    all := replay.complete;
    ghost var wanted := |replay.spans| + |replay.live|;
    episodes, stretches := replay.Finish();
    all := all && |stretches| == wanted;
  }

  lemma AtStart(replay: Replay, start: seq<BlockState>, none: seq<Change>, pool: seq<Dependency>, now: int)
    requires replay.sets == [EdgeSet(start)] && replay.times == [] && none == []
    ensures At(replay, start, start, Relevant(none, now), pool)
  {
    NoChanges(start, none, pool, now);
  }

  lemma AtNext(replay: Replay, states: seq<BlockState>, start: seq<BlockState>, past: seq<Change>, pool: seq<Dependency>, c: Change)
    requires At(replay, states, start, past, pool) && c.at.Some?
    ensures var history := Replayed(start, past + [c], pool);
      && replay.sets + [EdgeSet(Apply(states, c, pool, true))] == EdgeSets(history)
      && replay.times + [c.at.value] == Times(past + [c]) && Apply(states, c, pool, true) == history[|past| + 1]
  {
    hide Apply, EdgeSet, Replayed, EdgeSets, Times;
    ReplayedNext(start, past, c, pool);
  }

  lemma AtAfter(replay: Replay, states: seq<BlockState>, start: seq<BlockState>, past: seq<Change>, pool: seq<Dependency>)
    requires var history := Replayed(start, past, pool);
      replay.sets == EdgeSets(history) && replay.times == Times(past) && states == history[|past|]
    ensures At(replay, states, start, past, pool)
  {
  }

  lemma AtEnd(replay: Replay, states: seq<BlockState>, start: seq<BlockState>, past: seq<Change>, pool: seq<Dependency>)
    requires At(replay, states, start, past, pool)
    ensures replay.sets == EdgeSets(Replayed(start, past, pool)) && replay.times == Times(past)
  {
  }

  lemma {:induction false} FirstOfHistory(start: seq<BlockState>, changes: seq<Change>, pool: seq<Dependency>)
    ensures Replayed(start, changes, pool)[0] == start
    ensures EdgeSets(Replayed(start, changes, pool))[0] == EdgeSet(start)
  {
    hide Apply, EdgeSet;
    if changes != [] {
      FirstOfHistory(start, changes[..|changes| - 1], pool);
    }
  }

  lemma NoChanges(states: seq<BlockState>, changes: seq<Change>, pool: seq<Dependency>, now: int)
    requires changes == []
    ensures Relevant(changes, now) == [] && Rewound(states, [], pool) == states
    ensures Replayed(states, [], pool) == [states] && EdgeSets([states]) == [EdgeSet(states)] && Times([]) == []
  {
  }

  // ----- a history that was recorded

  /** The changes that are replayed, in their order: those with a time, up to now. */
  lemma {:induction false} RelevantIs(changes: seq<Change>, more: seq<Change>, c: Change, now: int)
    ensures c.at == None ==> Relevant([c], now) == []
    ensures forall t :: c.at == Some(t) ==> Relevant([c], now) == if t <= now then [c] else []
    ensures Relevant(changes + more, now) == Relevant(changes, now) + Relevant(more, now)
    decreases |more|
  {
    assert [c][1..] == [] && Pick(c, now) + [] == Pick(c, now);
    if more == [] {
      assert changes + more == changes;
    } else {
      var n := |more| - 1;
      RelevantIs(changes, more[..n], c, now);
      RelevantNext(changes + more[..n], more[n], now);
      RelevantNext(more[..n], more[n], now);
      assert changes + more[..n] + [more[n]] == changes + more && more[..n] + [more[n]] == more;
    }
  }

  /** States of which each change records two that follow one another. */
  ghost predicate Recorded(history: seq<seq<BlockState>>, changes: seq<Change>, pool: seq<Dependency>)
  {
    && |history| == |changes| + 1
    && forall i :: 0 <= i < |changes| ==> Records(history[i], changes[i], history[i + 1], pool)
  }

  lemma RecordedStep(history: seq<seq<BlockState>>, changes: seq<Change>, pool: seq<Dependency>)
    requires Recorded(history, changes, pool) && changes != []
    ensures var n := |changes| - 1;
      && Recorded(history[..n + 1], changes[..n], pool)
      && Apply(history[n], changes[n], pool, true) == history[n + 1] && Apply(history[n + 1], changes[n], pool, false) == history[n]
  {
    hide Records, Apply;
    var n := |changes| - 1;
    ChangeBetween(history[n], changes[n], history[n + 1], pool);
    forall i | 0 <= i < n ensures Records(history[..n + 1][i], changes[..n][i], history[..n + 1][i + 1], pool) {
      assert history[..n + 1][i] == history[i] && history[..n + 1][i + 1] == history[i + 1];
    }
  }

  /** Rewound from its last state and replayed, a recorded history goes through its own states. */
  lemma {:induction false} HistoryReplayed(history: seq<seq<BlockState>>, changes: seq<Change>, pool: seq<Dependency>)
    requires Recorded(history, changes, pool)
    ensures Rewound(history[|changes|], changes, pool) == history[0]
    ensures Replayed(history[0], changes, pool) == history
    decreases |changes|
  {
    hide Recorded, Apply;
    if changes == [] {
      OneState(history, changes, pool);
    } else {
      var n := |changes| - 1;
      RecordedLength(history, changes, pool);
      RecordedStep(history, changes, pool);
      HistoryReplayed(history[..n + 1], changes[..n], pool);
      assert history[..n + 1] + [history[n + 1]] == history;
    }
  }

  lemma RecordedLength(history: seq<seq<BlockState>>, changes: seq<Change>, pool: seq<Dependency>)
    requires Recorded(history, changes, pool)
    ensures |history| == |changes| + 1
  {
  }

  lemma OneState(history: seq<seq<BlockState>>, changes: seq<Change>, pool: seq<Dependency>)
    requires Recorded(history, changes, pool) && changes == []
    ensures |history| == 1 && Rewound(history[0], changes, pool) == history[0] && Replayed(history[0], changes, pool) == history
  {
  }

  /** Read off the chart of a recorded history, as `BlockerAnalysis` lists it: after `k` changes, up to
      the next, one card blocked another, as their states of that time say, exactly when one listed
      episode covers the time. */
  lemma ChartOfHistory(history: seq<seq<BlockState>>, changes: seq<Change>, pool: seq<Dependency>, now: int,
                       episodes: seq<Episode>, stretches: seq<Span>, e: Edge, k: nat, t: int) returns (i: nat)
    requires Recorded(history, changes, pool) && forall c :: c in changes ==> c.at.Some? && c.at.value <= now
    requires forall m, n :: 0 <= m < n < |changes| ==> changes[m].at.value <= changes[n].at.value
    requires var relevant := Relevant(changes, now);
      Listing(EdgeSets(Replayed(Rewound(history[|changes|], relevant, pool), relevant, pool)), Times(relevant), episodes, stretches, true)
    requires k <= |changes| && (0 < k ==> changes[k - 1].at.value <= t) && (k < |changes| ==> t < changes[k].at.value)
    ensures HasEdge(history[k], e) <==> i < |episodes| && episodes[i].edge == e && Covers(episodes[i], t)
    ensures forall j :: 0 <= j < |episodes| && episodes[j].edge == e && Covers(episodes[j], t) ==> j == i
  {
    hide Recorded, Listing, HasEdge, EdgeSet, Covers, Rewound, Replayed, Relevant, StepAt;
    AllRelevant(changes, now);
    RecordedLength(history, changes, pool);
    HistoryReplayed(history, changes, pool);
    var times := Times(changes);
    assert forall m :: 0 <= m < |changes| ==> changes[m] in changes;
    i := EpisodesAtTime(EdgeSets(history), times, episodes, stretches, e, t);
    StepBetween(times, t, k);
    EdgeSetIs(history[k]);
  }

  lemma StepBetween(times: seq<int>, t: int, k: nat)
    requires InOrder(times) && k <= |times| && (0 < k ==> times[k - 1] <= t) && (k < |times| ==> t < times[k])
    ensures StepAt(times, t) == k
  {
    hide StepAt;
    var n := StepAt(times, t);
  }

  lemma {:induction false} AllRelevant(changes: seq<Change>, now: int)
    requires forall c :: c in changes ==> c.at.Some? && c.at.value <= now
    ensures Relevant(changes, now) == changes
  {
    if changes != [] {
      AllRelevant(changes[1..], now);
      assert changes[0] in changes && [changes[0]] + changes[1..] == changes;
    }
  }

  // ----- a list that is too short

  /** A card, archived at the start, that `n` open cards depend on. */
  ghost function HubAndSpokes(n: nat, archived: bool): seq<BlockState>
    requires n < 256
  {
    [BlockState([0], [], archived, false, false, false, [])]
    + seq(n, i requires 0 <= i < n => BlockState([i + 1], [], false, false, false, false, [Dependency([0], false)]))
  }

  ghost function Archiving(was: bool): Change
  {
    FieldChange([0], Some(0), Archived, Side(was, 1, 0, 0), Side(!was, 1, 0, 0))
  }

  lemma HubFirst(n: nat, archived: bool)
    requires n < 255
    ensures Find(HubAndSpokes(n, archived), [0]) == 0
  {
    assert HubAndSpokes(n, archived)[0].cardId == [0];
  }

  lemma HubArchived(n: nat, was: bool, forward: bool)
    requires n < 255
    ensures Apply(HubAndSpokes(n, was == forward), Archiving(was), [], forward) == HubAndSpokes(n, was != forward)
  {
    HubFirst(n, was == forward);
  }

  /** Twenty-five cards depend on a card that is taken out of the archive and put back: twenty-five
      episodes end, and the list has room for twenty-four. */
  lemma ShortList() returns (cards: seq<BlockState>, changes: seq<Change>)
    ensures var sets := EdgeSets(Replayed(Rewound(cards, Relevant(changes, 0), []), Relevant(changes, 0), []));
      sets[0] == {} && Begun(sets) == 25 && 4 * |changes| + 16 == 24
  {
    cards, changes := HubAndSpokes(25, true), [Archiving(true), Archiving(false)];
    var a, b := HubAndSpokes(25, true), HubAndSpokes(25, false);
    assert Relevant(changes, 0) == changes by {
      assert changes[1..] == [Archiving(false)] && changes[1..][1..] == [];
    }
    HubArchived(25, true, true);
    HubArchived(25, false, true);
    HubArchived(25, true, false);
    HubArchived(25, false, false);
    HubHistory(a, b, changes);
    HubEdges(true);
    HubEdges(false);
    assert EdgeSets([a, b, a]) == [EdgeSet(a), EdgeSet(b), EdgeSet(a)];
    ThreeSets(EdgeSet(a), EdgeSet(b), EdgeSet(a));
  }

  lemma HubHistory(a: seq<BlockState>, b: seq<BlockState>, changes: seq<Change>)
    requires |changes| == 2
    requires Apply(a, changes[0], [], true) == b && Apply(b, changes[1], [], true) == a
    requires Apply(a, changes[1], [], false) == b && Apply(b, changes[0], [], false) == a
    ensures Rewound(a, changes, []) == a && Replayed(a, changes, []) == [a, b, a]
  {
    hide Apply;
    var one := changes[..1];
    assert one[..0] == [] && changes[..2] == changes;
    assert Rewound(a, changes, []) == Rewound(b, one, []) == Rewound(a, [], []);
    assert Replayed(a, one, []) == [a] + [b];
  }

  lemma ThreeSets(x: set<Edge>, y: set<Edge>, z: set<Edge>)
    ensures Begun([x, y, z]) == |x| + |y - x| + |z - y|
  {
    var all: Sets, two: Sets, one: Sets := [x, y, z], [x, y], [x];
    assert all[..2] == two && two[..1] == one;
    assert Brought(one) == 0;
    assert Brought(two) == Brought(one) + |y - x|;
    assert Brought(all) == Brought(two) + |z - y|;
  }

  lemma HubEdgeOf(archived: bool, i: nat)
    requires 1 <= i <= 25
    ensures EdgeOf(HubAndSpokes(25, archived), i, 0) == if archived then None else Some(Edge(0, i, []))
  {
    HubFirst(25, archived);
  }

  lemma HubEdges(archived: bool)
    ensures EdgeSet(HubAndSpokes(25, archived)) == if archived then {} else Spokes(25)
    ensures |Spokes(25)| == 25
  {
    hide EdgeOf, EdgeSet;
    var s := HubAndSpokes(25, archived);
    EdgeSetIs(s);
    forall e ensures e in EdgeSet(s) <==> !archived && e in Spokes(25) {
      if HasEdge(s, e) {
        var i: nat, j: nat :| Makes(s, i, j, e);
        assert 1 <= i <= 25 && j == 0;
        HubEdgeOf(archived, i);
      }
      if !archived && e in Spokes(25) {
        HubEdgeOf(archived, e.card);
        assert Makes(s, e.card, 0, e);
      }
    }
    SpokeCount(25);
  }

  ghost function Spokes(n: nat): set<Edge> { set i | 1 <= i <= n :: Edge(0, i, []) }

  lemma {:induction false} SpokeCount(n: nat)
    ensures |Spokes(n)| == n
  {
    if n > 0 {
      SpokeCount(n - 1);
      assert Spokes(n) == Spokes(n - 1) + {Edge(0, n, [])};
    }
  }
}
