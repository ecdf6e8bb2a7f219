/** The ring of timestamp queries of `tracy::VkCtx`: ids are handed out at the head, results are
    collected from the tail, and a batch that was not ready is remembered and asked for again. */
module QueryRing {

  /** `QueryCount`: ids are reported in 16 bits. */
  const MAX_QUERIES: nat := 65536

  datatype Report = Report(id: nat, time: int)

  /** The fields of the context, what it has handed out and reported, and the slots of the query
      pool that were written and not reset since. */
  datatype Ring = Ring(count: nat, head: nat, tail: nat, oldCnt: nat, issued: seq<nat>, reports: seq<Report>,
                       dirty: set<nat>)

  /** The device's answer to a collection: not ready, or a time for every slot. */
  datatype Answer = NotReady | Ready(times: nat -> int)

  datatype Event = Next | Collect(answer: Answer)

  // ----- what the ring stands for

  /** How many ids are handed out and not reported: from tail to head, around the end. */
  function Outstanding(r: Ring): int
  {
    if r.head >= r.tail then r.head - r.tail else r.count - r.tail + r.head
  }

  /** The slot `k` after the tail. */
  function Slot(r: Ring, k: int): int
  {
    if r.tail + k < r.count then r.tail + k else r.tail + k - r.count
  }

  /** The slots from tail to head, around the end. */
  predicate Pending(r: Ring, s: int)
  {
    if r.head >= r.tail then r.tail <= s < r.head else r.tail <= s < r.count || 0 <= s < r.head
  }

  /** The slots from the tail that lie before the end of the pool: what one collection asks for. */
  function Batch(r: Ring): nat
    requires r.tail < r.count
  {
    if r.head < r.tail then r.count - r.tail else r.head - r.tail
  }

  predicate Bounds(r: Ring)
  {
    0 < r.count <= MAX_QUERIES && r.head < r.count && r.tail < r.count && r.oldCnt <= Batch(r)
  }

  /** Reports are the first ids handed out, in order; the rest are the slots after the tail. */
  ghost predicate InOrder(r: Ring)
  {
    && |r.reports| <= |r.issued| == |r.reports| + Outstanding(r)
    && (forall k :: 0 <= k < |r.reports| ==> r.reports[k].id == r.issued[k])
    && (forall k :: |r.reports| <= k < |r.issued| ==> r.issued[k] == Slot(r, k - |r.reports|))
  }

  /** The slots written and not reset are those that are outstanding. */
  ghost predicate Dirty(r: Ring)
  {
    forall s :: s in r.dirty <==> Pending(r, s)
  }

  ghost predicate Inv(r: Ring)
  {
    Bounds(r) && InOrder(r) && Dirty(r)
  }

  function Initial(count: nat): Ring
  {
    Ring(count, 0, 0, 0, [], [], {})
  }

  /** The ring must not fill up: the assertion in `NextQueryId`. */
  predicate CanNext(r: Ring)
  {
    r.count > 0 && (r.head + 1) % r.count != r.tail
  }

  // ----- steps

  function StepNext(r: Ring): Ring
    requires r.count > 0
  {
    r.(head := (r.head + 1) % r.count, issued := r.issued + [r.head], dirty := r.dirty + {r.head})
  }

  function Asked(r: Ring): nat
    requires r.tail < r.count
  {
    if r.oldCnt != 0 then r.oldCnt else Batch(r)
  }

  function Reports(tail: nat, cnt: nat, times: nat -> int): (s: seq<Report>)
    ensures |s| == cnt
    ensures forall k :: 0 <= k < cnt ==> s[k] == Report((tail + k) % MAX_QUERIES, times(tail + k))
  {
    if cnt == 0 then []
    else Reports(tail, cnt - 1, times) + [Report((tail + cnt - 1) % MAX_QUERIES, times(tail + cnt - 1))]
  }

  function Slots(tail: nat, cnt: nat): (r: set<nat>)
    ensures forall s :: s in r <==> tail <= s < tail + cnt
  {
    if cnt == 0 then {} else Slots(tail, cnt - 1) + {tail + cnt - 1}
  }

  function StepCollect(r: Ring, a: Answer): Ring
    requires r.tail < r.count
  {
    if r.tail == r.head then r
    else if a.NotReady? then r.(oldCnt := Asked(r))
    else
      var cnt := Asked(r);
      r.(oldCnt := 0, reports := r.reports + Reports(r.tail, cnt, a.times), dirty := r.dirty - Slots(r.tail, cnt),
         tail := if r.tail + cnt == r.count then 0 else r.tail + cnt)
  }

  lemma InitialInv(count: nat)
    requires 0 < count <= MAX_QUERIES
    ensures Inv(Initial(count))
  {
  }

  lemma HeadNext(r: Ring)
    requires r.head < r.count
    ensures (r.head + 1) % r.count == if r.head + 1 == r.count then 0 else r.head + 1
  {
  }

  /** A slot is handed out only after it was reset, and every id is in its place in the order. */
  lemma NextKeeps(r: Ring)
    requires Inv(r) && CanNext(r)
    ensures r.head !in r.dirty && Inv(StepNext(r))
  {
    HeadNext(r);
    NextOrder(r, StepNext(r));
  }

  lemma NextOrder(r: Ring, t: Ring)
    requires Bounds(r) && InOrder(r) && Bounds(t) && t.head == (if r.head + 1 == r.count then 0 else r.head + 1)
    requires t.head != r.tail
    requires t == r.(head := t.head, issued := r.issued + [r.head], dirty := t.dirty)
    ensures InOrder(t)
  {
    forall k | |t.reports| <= k < |t.issued| ensures t.issued[k] == Slot(t, k - |t.reports|) {
      if k < |r.issued| {
        assert r.issued[k] == Slot(r, k - |r.reports|);
      }
    }
  }

  /** A ready batch reports the oldest outstanding ids, in order, and resets exactly their slots. */
  lemma CollectKeeps(r: Ring, a: Answer)
    requires Inv(r)
    ensures Inv(StepCollect(r, a))
  {
    if r.tail != r.head && a.Ready? {
      CollectOrder(r, StepCollect(r, a), a);
      CollectDirty(r, StepCollect(r, a), Asked(r));
    }
  }

  lemma CollectOrder(r: Ring, t: Ring, a: Answer)
    requires Bounds(r) && InOrder(r) && r.tail != r.head && a.Ready? && t == StepCollect(r, a)
    ensures InOrder(t)
  {
    CollectReported(r, t, a);
    CollectWaiting(r, t, a);
  }

  lemma CollectReported(r: Ring, t: Ring, a: Answer)
    requires Bounds(r) && InOrder(r) && r.tail != r.head && a.Ready? && t == StepCollect(r, a)
    ensures |t.reports| <= |t.issued| && forall k :: 0 <= k < |t.reports| ==> t.reports[k].id == t.issued[k]
  {
    hide Slots;
    var n, cnt := |r.reports|, Asked(r);
    var batch := Reports(r.tail, cnt, a.times);
    forall k | 0 <= k < |t.reports| ensures t.reports[k].id == t.issued[k] {
      if k >= n {
        assert r.issued[k] == Slot(r, k - n);
        assert t.reports[k] == batch[k - n];
      } else {
        assert t.reports[k] == r.reports[k];
      }
    }
  }

  lemma CollectWaiting(r: Ring, t: Ring, a: Answer)
    requires Bounds(r) && InOrder(r) && r.tail != r.head && a.Ready? && t == StepCollect(r, a)
    ensures forall k :: |t.reports| <= k < |t.issued| ==> t.issued[k] == Slot(t, k - |t.reports|)
  {
    hide Slots, Reports;
    forall k | |t.reports| <= k < |t.issued| ensures t.issued[k] == Slot(t, k - |t.reports|) {
      assert r.issued[k] == Slot(r, k - |r.reports|);
    }
  }

  lemma CollectDirty(r: Ring, t: Ring, cnt: nat)
    requires Bounds(r) && Dirty(r) && r.tail != r.head && cnt == Asked(r)
    requires t.count == r.count && t.head == r.head && t.tail == (if r.tail + cnt == r.count then 0 else r.tail + cnt)
    requires t.dirty == r.dirty - Slots(r.tail, cnt)
    ensures Dirty(t)
  {
  }

  // ----- runs

  function Step(r: Ring, e: Event): Ring
    requires r.tail < r.count
  {
    match e case Next => StepNext(r) case Collect(a) => StepCollect(r, a)
  }

  /** The ring after a run of events. */
  ghost function Run(r: Ring, es: seq<Event>): Ring
    requires Allowed(r, es)
    decreases |es|
  {
    if es == [] then r else Run(Step(r, es[0]), es[1..])
  }

  /** The ring never fills up. */
  ghost predicate Allowed(r: Ring, es: seq<Event>)
    decreases |es|
  {
    es != [] ==> r.tail < r.count && (es[0].Next? ==> CanNext(r)) && Allowed(Step(r, es[0]), es[1..])
  }

  /** No event of the run hands out a slot that was not reset. */
  ghost predicate NoReuse(r: Ring, es: seq<Event>)
    requires Allowed(r, es)
    decreases |es|
  {
    es != [] ==> (es[0].Next? ==> r.head !in r.dirty) && NoReuse(Step(r, es[0]), es[1..])
  }

  lemma {:induction false} RunKeeps(r: Ring, es: seq<Event>)
    requires Inv(r) && Allowed(r, es)
    ensures Inv(Run(r, es)) && NoReuse(r, es)
    ensures r.issued <= Run(r, es).issued && r.reports <= Run(r, es).reports
    decreases |es|
  {
    hide Inv;
    if es != [] {
      var t := Step(r, es[0]);
      StepKeeps(r, es[0]);
      RunKeeps(t, es[1..]);
      assert r.issued <= t.issued && r.reports <= t.reports;
    }
  }

  lemma StepKeeps(r: Ring, e: Event)
    requires Inv(r) && (e.Next? ==> CanNext(r))
    ensures r.tail < r.count && Inv(Step(r, e)) && (e.Next? ==> r.head !in r.dirty)
  {
    match e
    case Next => NextKeeps(r);
    case Collect(a) => CollectKeeps(r, a);
  }

  function Ids(reports: seq<Report>): (s: seq<nat>)
    ensures |s| == |reports| && forall k :: 0 <= k < |s| ==> s[k] == reports[k].id
  {
    if reports == [] then [] else Ids(reports[..|reports| - 1]) + [reports[|reports| - 1].id]
  }

  /** Over every run from an empty ring: the ids reported are a prefix of the ids handed out, a
      remembered batch lies inside the outstanding slots, and no slot is reused early. */
  lemma RunFromEmpty(count: nat, es: seq<Event>)
    requires 0 < count <= MAX_QUERIES && Allowed(Initial(count), es)
    ensures var r := Run(Initial(count), es);
            && Ids(r.reports) <= r.issued
            && r.tail < r.count && r.oldCnt <= Batch(r) <= Outstanding(r) == |r.issued| - |r.reports|
            && (forall s :: r.tail <= s < r.tail + r.oldCnt ==> Pending(r, s))
    ensures NoReuse(Initial(count), es)
  {
    InitialInv(count);
    RunKeeps(Initial(count), es);
  }

  // ----- a refused batch

  /** Ids are handed out and collections refused. */
  ghost predicate NothingReady(es: seq<Event>)
  {
    forall i :: 0 <= i < |es| ==> es[i].Next? || es[i].answer.NotReady?
  }

  /** While nothing is ready a remembered batch stays, and so do the tail and the reports. */
  ghost predicate Waiting(r: Ring, t: Ring, cnt: nat)
  {
    && t.count == r.count && t.tail == r.tail && t.oldCnt == cnt && t.reports == r.reports && r.issued <= t.issued
    && t.tail < t.count && t.tail != t.head && cnt > 0
  }

  lemma {:induction false} StillWaiting(r: Ring, t: Ring, cnt: nat, es: seq<Event>)
    requires Waiting(r, t, cnt) && NothingReady(es) && Allowed(t, es)
    ensures Waiting(r, Run(t, es), cnt)
    decreases |es|
  {
    hide Reports, Slots;
    if es != [] {
      assert forall i :: 0 <= i < |es[1..]| ==> es[1..][i] == es[i + 1];
      StillWaiting(r, Step(t, es[0]), cnt, es[1..]);
    }
  }

  /** The slots a refused collection asked for: those outstanding from the tail to the end of the pool. */
  ghost predicate AskedFor(r: Ring, cnt: nat)
  {
    forall s: int :: r.tail <= s < r.tail + cnt <==> r.tail <= s && Pending(r, s)
  }

  /** A collection with nothing remembered is refused; after any ids handed out and any further
      refusals, the next ready one reports exactly the slots outstanding up to the end of the pool at
      the first refusal, and so none of the ids handed out since. */
  lemma RefusedBatch(r: Ring, es: seq<Event>, a: Answer)
    requires Inv(r) && r.oldCnt == 0 && r.tail != r.head && a.Ready?
    requires NothingReady(es) && Allowed(r, [Collect(NotReady)] + es)
    ensures r.tail < r.count && AskedFor(r, Batch(r)) && 0 < Batch(r) <= |r.issued| - |r.reports|
    ensures var t := Run(r, [Collect(NotReady)] + es);
            && t.tail < t.count
            && var u := StepCollect(t, a);
            && u.reports == r.reports + Reports(r.tail, Batch(r), a.times)
            && Ids(u.reports) == r.issued[..|r.reports| + Batch(r)] && r.issued <= u.issued
  {
    hide Reports, Slots, Run;
    var cnt, t0 := Batch(r), StepCollect(r, NotReady);
    RunFirst(r, Collect(NotReady), es);
    StillWaiting(r, t0, cnt, es);
    var t := Run(t0, es);
    var u := StepCollect(t, a);
    CollectKeeps(r, NotReady);
    RunKeeps(t0, es);
    CollectKeeps(t, a);
    IdsPrefix(r, u, cnt);
  }

  lemma RunFirst(r: Ring, e: Event, es: seq<Event>)
    requires Allowed(r, [e] + es)
    ensures r.tail < r.count && Allowed(Step(r, e), es) && Run(r, [e] + es) == Run(Step(r, e), es)
  {
    hide StepCollect, StepNext;
    assert ([e] + es)[1..] == es;
  }

  lemma IdsPrefix(r: Ring, u: Ring, cnt: nat)
    requires InOrder(u) && r.issued <= u.issued && |u.reports| == |r.reports| + cnt <= |r.issued|
    ensures Ids(u.reports) == r.issued[..|r.reports| + cnt]
  {
    forall k | 0 <= k < |u.reports| ensures Ids(u.reports)[k] == r.issued[k] {
    }
  }

  /** Three collections that are ready report everything: the remembered batch, the slots up to
      the end of the pool, and the slots from its start. */
  lemma Drained(r: Ring, a: Answer, b: Answer, c: Answer)
    requires Inv(r) && a.Ready? && b.Ready? && c.Ready?
    ensures Allowed(r, [Collect(a), Collect(b), Collect(c)])
    ensures var t := Run(r, [Collect(a), Collect(b), Collect(c)]);
            Ids(t.reports) == t.issued == r.issued && t.dirty == {}
  {
    hide StepCollect, InOrder, Dirty, Run, Allowed;
    var r1 := StepCollect(r, a);
    CollectKeeps(r, a);
    Collected(r, a);
    CollectKeeps(r1, b);
    Collected(r1, b);
    var r2 := StepCollect(r1, b);
    CollectKeeps(r2, c);
    Collected(r2, c);
    var r3 := StepCollect(r2, c);
    Unfold3(r, Collect(a), Collect(b), Collect(c));
    assert r3.tail == r3.head;
    Empty(r3);
  }

  /** A ready collection that no refused one precedes leaves nothing before the end of the pool. */
  lemma Collected(r: Ring, a: Answer)
    requires Bounds(r) && a.Ready?
    ensures var t := StepCollect(r, a);
            && t.oldCnt == 0 && t.head == r.head && t.issued == r.issued
            && (r.oldCnt == 0 ==> t.tail == t.head || (r.head < r.tail && t.tail == 0))
  {
    hide Reports, Slots;
  }

  /** With nothing outstanding everything is reported and reset. */
  lemma Empty(r: Ring)
    requires Inv(r) && r.tail == r.head
    ensures Ids(r.reports) == r.issued && r.dirty == {}
  {
    assert forall s :: s !in r.dirty;
  }

  lemma Unfold3(r: Ring, a: Event, b: Event, c: Event)
    requires a.Collect? && b.Collect? && c.Collect? && Bounds(r)
    requires Bounds(Step(r, a)) && Bounds(Step(Step(r, a), b))
    ensures Allowed(r, [a, b, c]) && Run(r, [a, b, c]) == Step(Step(Step(r, a), b), c)
  {
    hide StepCollect, StepNext, Batch;
    var r1 := Step(r, a);
    var r2 := Step(r1, b);
    assert [c][1..] == [] && Allowed(Step(r2, c), []);
    assert Allowed(r2, [c]) && Run(r2, [c]) == Step(r2, c);
    assert [b, c][1..] == [c];
    assert Allowed(r1, [b, c]) && Run(r1, [b, c]) == Step(r2, c);
    assert [a, b, c][1..] == [b, c];
  }

  // ----- the context

  class VkCtx {
    var m_queryCount: nat
    var m_head: nat
    var m_tail: nat
    var m_oldCnt: nat
    var queue: seq<Report>
    ghost var issued: seq<nat>
    ghost var dirty: set<nat>

    ghost function View(): Ring
      reads this
    {
      Ring(m_queryCount, m_head, m_tail, m_oldCnt, issued, queue, dirty)
    }

    constructor (count: nat)
      requires 0 < count <= MAX_QUERIES
      ensures View() == Initial(count) && Inv(View())
    {
      m_queryCount, m_head, m_tail, m_oldCnt, queue := count, 0, 0, 0, [];
      issued, dirty := [], {};
      new;
      InitialInv(count);
    }

    method NextQueryId() returns (id: nat)
      requires Inv(View()) && CanNext(View())
      modifies this
      ensures View() == StepNext(old(View())) && Inv(View())
      ensures id == old(m_head) && id !in old(dirty)
    {
      NextKeeps(View());
      id := m_head;
      m_head := (m_head + 1) % m_queryCount;
      issued, dirty := issued + [id], dirty + {id};
    }

    method CollectResults(answer: Answer)
      requires Inv(View())
      modifies this
      ensures View() == StepCollect(old(View()), answer) && Inv(View())
    {
      hide Reports, Slots;
      CollectKeeps(View(), answer);
      if m_tail == m_head {
        return;
      }
      var cnt: nat;
      if m_oldCnt != 0 {
        cnt := m_oldCnt;
        m_oldCnt := 0;
      } else {
        cnt := if m_head < m_tail then m_queryCount - m_tail else m_head - m_tail;
      }
      if answer.NotReady? {
        m_oldCnt := cnt;
        return;
      }
      ReportBatch(cnt, answer.times);
      dirty := dirty - Slots(m_tail, cnt);
      m_tail := m_tail + cnt;
      if m_tail == m_queryCount {
        m_tail := 0;
      }
    }

    method ReportBatch(cnt: nat, times: nat -> int)
      modifies this`queue
      ensures queue == old(queue) + Reports(m_tail, cnt, times)
    {
      for idx := 0 to cnt
        invariant queue == old(queue) + Reports(m_tail, idx, times)
      {
        queue := queue + [Report((m_tail + idx) % MAX_QUERIES, times(m_tail + idx))];
      }
    }
  }
}
