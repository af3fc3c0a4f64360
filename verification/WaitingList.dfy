/** The waiting list of gnl_fss_waiting_list.c: entries of removed processes stay queued until a pop skips them. */
module WaitingList {
  import opened Wrappers
  import opened FirstFit

  /** A waiting process with its request. */
  datatype Entry<R> = Entry(pid: int, request: R)

  datatype Queue<R> = Queue(target: string, entries: seq<Entry<R>>)

  datatype Lists<R> = Lists(queues: seq<Queue<R>>, presence: seq<int>)

  function Empty<R>(): Lists<R> {
    Lists([], [])
  }

  /** The position of a target's queue; the length of the list if there is none. */
  function Find<R>(queues: seq<Queue<R>>, target: string): (i: nat)
    ensures i <= |queues|
    ensures i < |queues| ==> queues[i].target == target
    ensures forall j :: 0 <= j < i ==> queues[j].target != target
  {
    if queues == [] then 0
    else if queues[0].target == target then 0
    else
      var i := Find(queues[1..], target);
      assert forall j :: 0 < j < 1 + i ==> queues[j] == queues[1..][j - 1];
      1 + i
  }

  lemma {:induction false} FindIs<R>(queues: seq<Queue<R>>, target: string, i: nat)
    requires i <= |queues| && (forall j :: 0 <= j < i ==> queues[j].target != target)
    requires i < |queues| ==> queues[i].target == target
    ensures Find(queues, target) == i
  {
    if i > 0 {
      FindIs(queues[1..], target, i - 1);
    }
  }

  /** The entries queued for a target. */
  function EntriesOf<R>(queues: seq<Queue<R>>, target: string): seq<Entry<R>> {
    var i := Find(queues, target);
    if i < |queues| then queues[i].entries else []
  }

  function PushQueue<R>(queues: seq<Queue<R>>, target: string, e: Entry<R>): seq<Queue<R>> {
    var i := Find(queues, target);
    if i < |queues| then queues[i := Queue(target, queues[i].entries + [e])] else queues + [Queue(target, [e])]
  }

  /** The entries up to the first one whose process is present are dropped. */
  function PopEntries<R>(entries: seq<Entry<R>>, presence: seq<int>): (r: (Option<Entry<R>>, seq<Entry<R>>)) {
    if entries == [] then (None, [])
    else if entries[0].pid in presence then (Some(entries[0]), entries[1..])
    else PopEntries(entries[1..], presence)
  }

  function DeleteAll(presence: seq<int>, pid: int): seq<int> {
    if presence == [] then []
    else if presence[0] == pid then DeleteAll(presence[1..], pid)
    else [presence[0]] + DeleteAll(presence[1..], pid)
  }

  // ---------- the calls ----------

  function Pushed<R>(s: Lists<R>, target: string, e: Entry<R>): Lists<R> {
    Lists(PushQueue(s.queues, target, e), s.presence + [e.pid])
  }

  function Popped<R>(s: Lists<R>, target: string): (Lists<R>, Option<Entry<R>>) {
    var i := Find(s.queues, target);
    if i == |s.queues| then (s, None)
    else
      var r := PopEntries(s.queues[i].entries, s.presence);
      var presence := if r.0.Some? then DeleteFirst(s.presence, r.0.value.pid) else s.presence;
      (Lists(s.queues[i := Queue(target, r.1)], presence), r.0)
  }

  function Removed<R>(s: Lists<R>, pid: int): Lists<R> {
    s.(presence := DeleteAll(s.presence, pid))
  }

  // ---------- a waiting list that deletes at once ----------

  function WithoutPid<R>(entries: seq<Entry<R>>, pid: int): seq<Entry<R>> {
    if entries == [] then []
    else if entries[0].pid == pid then WithoutPid(entries[1..], pid)
    else [entries[0]] + WithoutPid(entries[1..], pid)
  }

  function EagerPop<R>(queues: seq<Queue<R>>, target: string): (seq<Queue<R>>, Option<Entry<R>>) {
    var i := Find(queues, target);
    if i == |queues| then (queues, None)
    else
      var es := queues[i].entries;
      if es == [] then (queues, None) else (queues[i := Queue(target, es[1..])], Some(es[0]))
  }

  function EagerRemove<R>(queues: seq<Queue<R>>, pid: int): seq<Queue<R>> {
    seq(|queues|, i requires 0 <= i < |queues| => Queue(queues[i].target, WithoutPid(queues[i].entries, pid)))
  }

  // ---------- how the two agree ----------

  /** The entries whose processes are present. */
  function Live<R>(entries: seq<Entry<R>>, presence: seq<int>): seq<Entry<R>> {
    if entries == [] then []
    else (if entries[0].pid in presence then [entries[0]] else []) + Live(entries[1..], presence)
  }

  function Eager<R>(s: Lists<R>): seq<Queue<R>> {
    seq(|s.queues|, i requires 0 <= i < |s.queues| => Queue(s.queues[i].target, Live(s.queues[i].entries, s.presence)))
  }

  /** How often a process is queued. */
  function CountPid<R>(entries: seq<Entry<R>>, pid: int): nat {
    if entries == [] then 0 else (if entries[0].pid == pid then 1 else 0) + CountPid(entries[1..], pid)
  }

  function Queued<R>(queues: seq<Queue<R>>, pid: int): nat {
    if queues == [] then 0 else CountPid(queues[0].entries, pid) + Queued(queues[1..], pid)
  }

  function Present<R>(s: Lists<R>, pid: int): nat {
    multiset(s.presence)[pid]
  }

  /** No process is present more often than it is queued. */
  ghost predicate Bounded<R>(s: Lists<R>) {
    forall pid :: Present(s, pid) <= Queued(s.queues, pid)
  }

  /** The entries of a process are either all live or all stale. */
  ghost predicate Uniform<R>(s: Lists<R>) {
    forall pid :: Present(s, pid) == 0 || Present(s, pid) == Queued(s.queues, pid)
  }

  // ---------- counting ----------

  lemma {:induction false} CountAppend<R>(entries: seq<Entry<R>>, e: Entry<R>, pid: int)
    ensures CountPid(entries + [e], pid) == CountPid(entries, pid) + if e.pid == pid then 1 else 0
  {
    if entries == [] {
      assert CountPid([e], pid) == (if e.pid == pid then 1 else 0) + CountPid([e][1..], pid);
    } else {
      assert (entries + [e])[1..] == entries[1..] + [e];
      CountAppend(entries[1..], e, pid);
    }
  }

  lemma {:induction false} QueuedUpdate<R>(queues: seq<Queue<R>>, i: nat, q: Queue<R>, pid: int)
    requires i < |queues|
    ensures Queued(queues[i := q], pid) ==
            Queued(queues, pid) - CountPid(queues[i].entries, pid) + CountPid(q.entries, pid)
  {
    if i == 0 {
      assert queues[0 := q][1..] == queues[1..];
    } else {
      assert queues[i := q][1..] == queues[1..][i - 1 := q];
      QueuedUpdate(queues[1..], i - 1, q, pid);
    }
  }

  lemma {:induction false} QueuedAppend<R>(queues: seq<Queue<R>>, q: Queue<R>, pid: int)
    ensures Queued(queues + [q], pid) == Queued(queues, pid) + CountPid(q.entries, pid)
  {
    if queues == [] {
      assert Queued([q], pid) == CountPid(q.entries, pid) + Queued([q][1..], pid);
    } else {
      assert (queues + [q])[1..] == queues[1..] + [q];
      QueuedAppend(queues[1..], q, pid);
    }
  }

  lemma {:induction false} QueuedAtLeast<R>(queues: seq<Queue<R>>, i: nat, pid: int)
    requires i < |queues|
    ensures Queued(queues, pid) >= CountPid(queues[i].entries, pid)
  {
    if i > 0 {
      QueuedAtLeast(queues[1..], i - 1, pid);
    }
  }

  lemma PushCounts<R>(s: Lists<R>, target: string, e: Entry<R>, pid: int)
    ensures Queued(Pushed(s, target, e).queues, pid) == Queued(s.queues, pid) + if e.pid == pid then 1 else 0
    ensures Present(Pushed(s, target, e), pid) == Present(s, pid) + if e.pid == pid then 1 else 0
  {
    var i := Find(s.queues, target);
    if i < |s.queues| {
      CountAppend(s.queues[i].entries, e, pid);
      QueuedUpdate(s.queues, i, Queue(target, s.queues[i].entries + [e]), pid);
    } else {
      CountAppend([], e, pid);
      assert [] + [e] == [e];
      QueuedAppend(s.queues, Queue(target, [e]), pid);
    }
  }

  /** A pop drops stale entries, and at most one entry of a present process. */
  lemma {:induction false} PopCounts<R>(entries: seq<Entry<R>>, presence: seq<int>, pid: int)
    ensures var r := PopEntries(entries, presence);
            && (r.0.Some? ==> r.0.value.pid in presence)
            && CountPid(r.1, pid) <= CountPid(entries, pid)
            && (pid in presence ==>
                  CountPid(r.1, pid) == CountPid(entries, pid) - if r.0.Some? && r.0.value.pid == pid then 1 else 0)
  {
    if entries != [] && entries[0].pid !in presence {
      PopCounts(entries[1..], presence, pid);
    }
  }

  lemma {:induction false} DeletedAll(presence: seq<int>, pid: int, p: int)
    ensures multiset(DeleteAll(presence, pid))[p] == if p == pid then 0 else multiset(presence)[p]
    ensures p in DeleteAll(presence, pid) <==> p in presence && p != pid
  {
    if presence != [] {
      assert presence == [presence[0]] + presence[1..];
      DeletedAll(presence[1..], pid, p);
    }
  }

  // ---------- invariants ----------

  lemma PushKeepsBound<R>(s: Lists<R>, target: string, e: Entry<R>)
    requires Bounded(s)
    ensures Bounded(Pushed(s, target, e))
  {
    forall pid
      ensures Present(Pushed(s, target, e), pid) <= Queued(Pushed(s, target, e).queues, pid)
    {
      PushCounts(s, target, e, pid);
    }
  }

  /** The push of a process without stale entries keeps its entries alike. */
  lemma PushKeepsUniform<R>(s: Lists<R>, target: string, e: Entry<R>)
    requires Uniform(s) && Present(s, e.pid) == Queued(s.queues, e.pid)
    ensures Uniform(Pushed(s, target, e))
  {
    forall pid
      ensures Present(Pushed(s, target, e), pid) == 0
           || Present(Pushed(s, target, e), pid) == Queued(Pushed(s, target, e).queues, pid)
    {
      PushCounts(s, target, e, pid);
    }
  }

  lemma PopPid<R>(s: Lists<R>, target: string, pid: int)
    requires Find(s.queues, target) < |s.queues|
    ensures var t := Popped(s, target).0;
            && (Present(s, pid) == 0 ==> Present(t, pid) == 0)
            && (Present(s, pid) > 0 ==>
                  Queued(t.queues, pid) - Present(t, pid) == Queued(s.queues, pid) - Present(s, pid))
  {
    var i := Find(s.queues, target);
    var r := PopEntries(s.queues[i].entries, s.presence);
    PopCounts(s.queues[i].entries, s.presence, pid);
    QueuedUpdate(s.queues, i, Queue(target, r.1), pid);
    assert pid in s.presence <==> Present(s, pid) > 0;
  }

  lemma PopKeeps<R>(s: Lists<R>, target: string)
    ensures Bounded(s) ==> Bounded(Popped(s, target).0)
    ensures Uniform(s) ==> Uniform(Popped(s, target).0)
  {
    hide Popped;
    if Find(s.queues, target) < |s.queues| {
      forall pid
        ensures Bounded(s) ==> Present(Popped(s, target).0, pid) <= Queued(Popped(s, target).0.queues, pid)
        ensures Uniform(s) ==>
          Present(Popped(s, target).0, pid) == 0 || Present(Popped(s, target).0, pid) == Queued(Popped(s, target).0.queues, pid)
      {
        PopPid(s, target, pid);
      }
    } else {
      NoQueue(s, target);
    }
  }

  lemma NoQueue<R>(s: Lists<R>, target: string)
    requires Find(s.queues, target) == |s.queues|
    ensures Popped(s, target) == (s, None)
  {
  }

  lemma RemoveKeeps<R>(s: Lists<R>, pid: int)
    ensures Bounded(s) ==> Bounded(Removed(s, pid))
    ensures Uniform(s) ==> Uniform(Removed(s, pid))
  {
    forall p
      ensures Present(Removed(s, pid), p) == if p == pid then 0 else Present(s, p)
    {
      DeletedAll(s.presence, pid, p);
    }
  }

  // ---------- lazy deletion refines eager deletion ----------

  lemma {:induction false} SameTargets<R>(a: seq<Queue<R>>, b: seq<Queue<R>>, target: string)
    requires |a| == |b| && forall i :: 0 <= i < |a| ==> a[i].target == b[i].target
    ensures Find(a, target) == Find(b, target)
  {
    if a != [] {
      SameTargets(a[1..], b[1..], target);
    }
  }

  lemma FindEager<R>(s: Lists<R>, target: string)
    ensures Find(Eager(s), target) == Find(s.queues, target)
  {
    SameTargets(Eager(s), s.queues, target);
  }

  /** Whether processes without entries are present does not matter. */
  lemma {:induction false} LiveSame<R>(entries: seq<Entry<R>>, a: seq<int>, b: seq<int>)
    requires forall pid :: CountPid(entries, pid) > 0 ==> (pid in a <==> pid in b)
    ensures Live(entries, a) == Live(entries, b)
  {
    if entries != [] {
      assert CountPid(entries, entries[0].pid) > 0;
      forall pid | CountPid(entries[1..], pid) > 0
        ensures pid in a <==> pid in b
      {
        assert CountPid(entries, pid) > 0;
      }
      LiveSame(entries[1..], a, b);
    }
  }

  lemma {:induction false} LiveAppend<R>(entries: seq<Entry<R>>, e: Entry<R>, presence: seq<int>)
    ensures Live(entries + [e], presence) == Live(entries, presence) + if e.pid in presence then [e] else []
  {
    if entries == [] {
      assert [] + [e] == [e] && [e][1..] == [];
    } else {
      assert (entries + [e])[1..] == entries[1..] + [e];
      LiveAppend(entries[1..], e, presence);
    }
  }

  lemma {:induction false} LivePop<R>(entries: seq<Entry<R>>, presence: seq<int>)
    ensures var r := PopEntries(entries, presence);
            Live(entries, presence) == (if r.0.Some? then [r.0.value] else []) + Live(r.1, presence)
    ensures PopEntries(entries, presence).0.None? ==> Live(entries, presence) == []
  {
    if entries != [] && entries[0].pid !in presence {
      LivePop(entries[1..], presence);
    }
  }

  lemma {:induction false} LiveRemove<R>(entries: seq<Entry<R>>, presence: seq<int>, pid: int)
    ensures Live(entries, DeleteAll(presence, pid)) == WithoutPid(Live(entries, presence), pid)
  {
    if entries != [] {
      DeletedAll(presence, pid, entries[0].pid);
      LiveRemove(entries[1..], presence, pid);
      var rest := Live(entries[1..], presence);
      var kept := Live(entries[1..], DeleteAll(presence, pid));
      assert ([entries[0]] + rest)[1..] == rest && [] + rest == rest && [] + kept == kept;
    }
  }

  /** The queues of `s` hold no entry whose presence differs between `a` and `b`. */
  lemma EagerSame<R>(queues: seq<Queue<R>>, a: seq<int>, b: seq<int>)
    requires forall pid :: Queued(queues, pid) > 0 ==> (pid in a <==> pid in b)
    ensures Eager(Lists(queues, a)) == Eager(Lists(queues, b))
  {
    forall i | 0 <= i < |queues|
      ensures Live(queues[i].entries, a) == Live(queues[i].entries, b)
    {
      forall pid | CountPid(queues[i].entries, pid) > 0
        ensures pid in a <==> pid in b
      {
        QueuedAtLeast(queues, i, pid);
      }
      LiveSame(queues[i].entries, a, b);
    }
  }

  /** The new process becomes present, and its entry goes to the end of its queue. */
  lemma EagerPushQueue<R>(queues: seq<Queue<R>>, presence: seq<int>, target: string, e: Entry<R>)
    requires e.pid in presence
    ensures Eager(Lists(PushQueue(queues, target, e), presence)) ==
            PushQueue(Eager(Lists(queues, presence)), target, e)
  {
    FindEager(Lists(queues, presence), target);
    var i := Find(queues, target);
    if i < |queues| {
      LiveAppend(queues[i].entries, e, presence);
    } else {
      LiveAppend([], e, presence);
      assert [] + [e] == [e];
    }
    assert Eager(Lists(PushQueue(queues, target, e), presence)) ==
           PushQueue(Eager(Lists(queues, presence)), target, e);
  }

  lemma PushRefines<R>(s: Lists<R>, target: string, e: Entry<R>)
    requires Uniform(s) && Present(s, e.pid) == Queued(s.queues, e.pid)
    ensures Eager(Pushed(s, target, e)) == PushQueue(Eager(s), target, e)
  {
    EagerPushQueue(s.queues, s.presence + [e.pid], target, e);
    forall pid | Queued(s.queues, pid) > 0
      ensures pid in s.presence <==> pid in s.presence + [e.pid]
    {
      assert pid in s.presence <==> Present(s, pid) > 0;
    }
    EagerSame(s.queues, s.presence, s.presence + [e.pid]);
  }

  lemma PopOneQueue<R>(queues: seq<Queue<R>>, presence: seq<int>, i: nat, target: string)
    requires i < |queues| && queues[i].target == target
    ensures var r := PopEntries(queues[i].entries, presence);
            var es := Eager(Lists(queues, presence))[i].entries;
            && (if es == [] then r.0 == None else r.0 == Some(es[0]))
            && Eager(Lists(queues[i := Queue(target, r.1)], presence)) ==
               Eager(Lists(queues, presence))[i := Queue(target, if es == [] then [] else es[1..])]
  {
    hide PopEntries, Live;
    LivePop(queues[i].entries, presence);
  }

  lemma PopRefines<R>(s: Lists<R>, target: string)
    requires Uniform(s)
    ensures (Eager(Popped(s, target).0), Popped(s, target).1) == EagerPop(Eager(s), target)
  {
    hide PopEntries, Live, Uniform;
    FindEager(s, target);
    var i := Find(s.queues, target);
    if i < |s.queues| {
      PopPresence(s, target);
      PopOneQueue(s.queues, s.presence, i, target);
      assert Eager(s)[i := Eager(s)[i]] == Eager(s);
    }
  }

  /** A popped process only stops being present when it has no entry left. */
  lemma PopPresence<R>(s: Lists<R>, target: string)
    requires Uniform(s) && Find(s.queues, target) < |s.queues|
    ensures var t := Popped(s, target).0; Eager(t) == Eager(Lists(t.queues, s.presence))
  {
    var t := Popped(s, target).0;
    var r := PopEntries(s.queues[Find(s.queues, target)].entries, s.presence);
    PopKeeps(s, target);
    forall pid | Queued(t.queues, pid) > 0
      ensures pid in t.presence <==> pid in s.presence
    {
      PopPid(s, target, pid);
      assert pid in s.presence <==> Present(s, pid) > 0;
      assert pid in t.presence <==> Present(t, pid) > 0;
    }
    EagerSame(t.queues, t.presence, s.presence);
  }

  lemma RemoveRefines<R>(s: Lists<R>, pid: int)
    ensures Eager(Removed(s, pid)) == EagerRemove(Eager(s), pid)
  {
    forall i | 0 <= i < |s.queues|
      ensures Live(s.queues[i].entries, DeleteAll(s.presence, pid)) ==
              WithoutPid(Live(s.queues[i].entries, s.presence), pid)
    {
      LiveRemove(s.queues[i].entries, s.presence, pid);
    }
  }

  // ---------- when a push is safe ----------

  lemma {:induction false} CountLive<R>(entries: seq<Entry<R>>, presence: seq<int>, pid: int)
    ensures CountPid(Live(entries, presence), pid) == if pid in presence then CountPid(entries, pid) else 0
  {
    if entries != [] {
      CountLive(entries[1..], presence, pid);
      var rest := Live(entries[1..], presence);
      assert ([entries[0]] + rest)[1..] == rest && [] + rest == rest;
    }
  }

  lemma {:induction false} QueuedLive<R>(queues: seq<Queue<R>>, presence: seq<int>, pid: int)
    ensures Queued(Eager(Lists(queues, presence)), pid) == if pid in presence then Queued(queues, pid) else 0
  {
    if queues != [] {
      CountLive(queues[0].entries, presence, pid);
      QueuedLive(queues[1..], presence, pid);
      assert Eager(Lists(queues, presence))[1..] == Eager(Lists(queues[1..], presence));
    }
  }

  /** A push does what eager deletion would do if, and only if, the process has no stale entry. */
  lemma PushRefinesIff<R>(s: Lists<R>, target: string, e: Entry<R>)
    requires Uniform(s)
    ensures Eager(Pushed(s, target, e)) == PushQueue(Eager(s), target, e)
       <==> Present(s, e.pid) == Queued(s.queues, e.pid)
  {
    if Present(s, e.pid) == Queued(s.queues, e.pid) {
      PushRefines(s, target, e);
    } else {
      var t := Pushed(s, target, e);
      PushCounts(s, target, e, e.pid);
      QueuedLive(t.queues, t.presence, e.pid);
      QueuedLive(s.queues, s.presence, e.pid);
      PushCounts(Lists(Eager(s), s.presence), target, e, e.pid);
      assert e.pid in s.presence <==> Present(s, e.pid) > 0;
    }
  }

  // ---------- runs ----------

  datatype Call<R> = CallPush(target: string, e: Entry<R>) | CallPop(target: string) | CallRemove(pid: int)

  function Step<R>(s: Lists<R>, c: Call<R>): (Lists<R>, Option<Entry<R>>) {
    match c
    case CallPush(target, e) => (Pushed(s, target, e), None)
    case CallPop(target) => Popped(s, target)
    case CallRemove(pid) => (Removed(s, pid), None)
  }

  function EagerStep<R>(queues: seq<Queue<R>>, c: Call<R>): (seq<Queue<R>>, Option<Entry<R>>) {
    match c
    case CallPush(target, e) => (PushQueue(queues, target, e), None)
    case CallPop(target) => EagerPop(queues, target)
    case CallRemove(pid) => (EagerRemove(queues, pid), None)
  }

  function Results<R>(s: Lists<R>, cs: seq<Call<R>>): seq<Option<Entry<R>>>
    decreases |cs|
  {
    if cs == [] then [] else [Step(s, cs[0]).1] + Results(Step(s, cs[0]).0, cs[1..])
  }

  function EagerResults<R>(queues: seq<Queue<R>>, cs: seq<Call<R>>): seq<Option<Entry<R>>>
    decreases |cs|
  {
    if cs == [] then [] else [EagerStep(queues, cs[0]).1] + EagerResults(EagerStep(queues, cs[0]).0, cs[1..])
  }

  function Final<R>(s: Lists<R>, cs: seq<Call<R>>): Lists<R>
    decreases |cs|
  {
    if cs == [] then s else Final(Step(s, cs[0]).0, cs[1..])
  }

  /** No process is pushed again while entries from before its removal are queued. */
  ghost predicate NoStalePush<R>(s: Lists<R>, cs: seq<Call<R>>)
    decreases |cs|
  {
    cs == [] ||
    (&& (cs[0].CallPush? ==> Present(s, cs[0].e.pid) == Queued(s.queues, cs[0].e.pid))
     && NoStalePush(Step(s, cs[0]).0, cs[1..]))
  }

  lemma {:induction false} LazyRefinesEager<R>(s: Lists<R>, cs: seq<Call<R>>)
    requires Uniform(s) && NoStalePush(s, cs)
    ensures Results(s, cs) == EagerResults(Eager(s), cs)
    decreases |cs|
  {
    if cs != [] {
      hide Pushed, Popped, Removed, Eager, PushQueue, EagerPop, EagerRemove, Uniform;
      match cs[0] {
        case CallPush(target, e) => PushRefines(s, target, e); PushKeepsUniform(s, target, e);
        case CallPop(target) => PopRefines(s, target); PopKeeps(s, target);
        case CallRemove(pid) => RemoveRefines(s, pid); RemoveKeeps(s, pid);
      }
      LazyRefinesEager(Step(s, cs[0]).0, cs[1..]);
    }
  }

  /** In every run from the empty list, every pop returns what a list that deletes at once would return. */
  lemma RunsAgree<R>(cs: seq<Call<R>>)
    requires NoStalePush(Empty<R>(), cs)
    ensures Results(Empty<R>(), cs) == EagerResults<R>([], cs)
  {
    LazyRefinesEager(Empty<R>(), cs);
    assert Eager(Empty<R>()) == [];
  }

  /** In every run, disciplined or not, no process is present more often than it is queued. */
  lemma {:induction false} RunBounded<R>(s: Lists<R>, cs: seq<Call<R>>)
    requires Bounded(s)
    ensures Bounded(Final(s, cs))
    decreases |cs|
  {
    if cs != [] {
      hide Pushed, Popped, Removed, Bounded;
      match cs[0] {
        case CallPush(target, e) => PushKeepsBound(s, target, e);
        case CallPop(target) => PopKeeps(s, target);
        case CallRemove(pid) => RemoveKeeps(s, pid);
      }
      RunBounded(Step(s, cs[0]).0, cs[1..]);
    }
  }

  // ---------- first in, first out ----------

  /** A queue was replaced, or a new one added at the end; the entries of other targets stay. */
  lemma FindAfter<R>(queues: seq<Queue<R>>, target: string, q: Queue<R>, t: string)
    requires q.target == target
    ensures var i := Find(queues, target);
            var changed := if i < |queues| then queues[i := q] else queues + [q];
            EntriesOf(changed, t) == if t == target then q.entries else EntriesOf(queues, t)
  {
    var i := Find(queues, target);
    var changed := if i < |queues| then queues[i := q] else queues + [q];
    var j := Find(queues, t);
    FindIs(changed, t, if t == target then i else if j < |queues| then j else |changed|);
  }

  /** A pushed entry goes to the end of its target's queue; the queues of other targets stay. */
  lemma PushAtEnd<R>(s: Lists<R>, target: string, e: Entry<R>, t: string)
    ensures EntriesOf(Pushed(s, target, e).queues, t) == EntriesOf(s.queues, t) + if t == target then [e] else []
  {
    FindAfter(s.queues, target, Queue(target, EntriesOf(s.queues, target) + [e]), t);
    assert [] + [e] == [e];
  }

  /** A pop drops entries of absent processes from the front, and returns the next entry, if there is one. */
  lemma PopFromFront<R>(s: Lists<R>, target: string, t: string) returns (dropped: seq<Entry<R>>)
    ensures var r := Popped(s, target);
            && (forall e :: e in dropped ==> e.pid !in s.presence)
            && EntriesOf(s.queues, t) == if t == target then dropped + Returned(r.1) + EntriesOf(r.0.queues, t)
                                         else EntriesOf(r.0.queues, t)
  {
    hide PopEntries;
    dropped := DropsFirst(EntriesOf(s.queues, target), s.presence);
    if Find(s.queues, target) < |s.queues| {
      FindAfter(s.queues, target, Queue(target, PopEntries(EntriesOf(s.queues, target), s.presence).1), t);
    } else {
      assert PopEntries<R>([], s.presence) == (None, []);
    }
  }

  function Returned<R>(r: Option<Entry<R>>): seq<Entry<R>> {
    if r.Some? then [r.value] else []
  }

  lemma {:induction false} DropsFirst<R>(entries: seq<Entry<R>>, presence: seq<int>) returns (dropped: seq<Entry<R>>)
    ensures forall e :: e in dropped ==> e.pid !in presence
    ensures entries == dropped + Returned(PopEntries(entries, presence).0) + PopEntries(entries, presence).1
  {
    if entries == [] || entries[0].pid in presence {
      dropped := [];
    } else {
      var rest := DropsFirst(entries[1..], presence);
      dropped := [entries[0]] + rest;
    }
  }

  /** The entries that calls push for a target, in order. */
  function PushedTo<R>(cs: seq<Call<R>>, target: string): seq<Entry<R>> {
    if cs == [] then []
    else (if cs[0].CallPush? && cs[0].target == target then [cs[0].e] else []) + PushedTo(cs[1..], target)
  }

  /** The entries that the pops of a target return, in order. */
  function PoppedFrom<R>(s: Lists<R>, cs: seq<Call<R>>, target: string): seq<Entry<R>>
    decreases |cs|
  {
    if cs == [] then []
    else (if cs[0].CallPop? && cs[0].target == target then Returned(Step(s, cs[0]).1) else [])
         + PoppedFrom(Step(s, cs[0]).0, cs[1..], target)
  }

  /** The processes that calls remove. */
  ghost function RemovedPids<R>(cs: seq<Call<R>>): set<int> {
    set c | c in cs && c.CallRemove? :: c.pid
  }

  /** The first sequence is what is left of the second when some of its elements are left out. */
  ghost predicate Subsequence<T>(a: seq<T>, b: seq<T>) {
    a == [] || (b != [] && ((a[0] == b[0] && Subsequence(a[1..], b[1..])) || Subsequence(a, b[1..])))
  }

  lemma {:induction false} SubsequencesJoin<T>(a: seq<T>, b: seq<T>, c: seq<T>, d: seq<T>)
    requires Subsequence(a, b) && Subsequence(c, d)
    ensures Subsequence(a + c, b + d)
    decreases |b|
  {
    if b != [] {
      assert (b + d)[1..] == b[1..] + d;
      if a == [] || Subsequence(a, b[1..]) {
        SubsequencesJoin(a, b[1..], c, d);
      } else {
        assert (a + c)[1..] == a[1..] + c;
        SubsequencesJoin(a[1..], b[1..], c, d);
      }
    } else {
      assert a + c == c && b + d == d;
    }
  }

  lemma {:induction false} SubsequenceOfItself<T>(a: seq<T>)
    ensures Subsequence(a, a)
  {
    if a != [] {
      SubsequenceOfItself(a[1..]);
    }
  }

  /** The entries of other processes. */
  function Others<R>(entries: seq<Entry<R>>, pids: set<int>): seq<Entry<R>> {
    if entries == [] then []
    else (if entries[0].pid in pids then [] else [entries[0]]) + Others(entries[1..], pids)
  }

  lemma {:induction false} OthersJoin<R>(a: seq<Entry<R>>, b: seq<Entry<R>>, pids: set<int>)
    ensures Others(a + b, pids) == Others(a, pids) + Others(b, pids)
  {
    if a == [] {
      assert a + b == b;
    } else {
      assert (a + b)[1..] == a[1..] + b;
      OthersJoin(a[1..], b, pids);
    }
  }

  lemma {:induction false} NoOthers<R>(entries: seq<Entry<R>>, pids: set<int>)
    requires forall e :: e in entries ==> e.pid in pids
    ensures Others(entries, pids) == []
  {
    if entries != [] {
      NoOthers(entries[1..], pids);
    }
  }

  lemma {:induction false} AllOthers<R>(entries: seq<Entry<R>>)
    ensures Others(entries, {}) == entries
  {
    if entries != [] {
      AllOthers(entries[1..]);
    }
  }

  /** What the first call pushes for a target, and what it pops. */
  lemma FirstCall<R>(s: Lists<R>, cs: seq<Call<R>>, target: string) returns (dropped: seq<Entry<R>>)
    requires cs != []
    ensures var t := Step(s, cs[0]).0;
            var input := PushedTo([cs[0]], target);
            var output := PoppedFrom(s, [cs[0]], target);
            && EntriesOf(s.queues, target) + input == dropped + output + EntriesOf(t.queues, target)
            && PushedTo(cs, target) == input + PushedTo(cs[1..], target)
            && PoppedFrom(s, cs, target) == output + PoppedFrom(t, cs[1..], target)
            && (forall e :: e in dropped ==> e.pid !in s.presence)
            && dropped <= EntriesOf(s.queues, target)
  {
    hide Pushed, Popped, Removed, EntriesOf;
    dropped := [];
    assert [cs[0]][1..] == [];
    match cs[0] {
      case CallPush(to, e) => PushAtEnd(s, to, e, target);
      case CallPop(from) =>
        var front := PopFromFront(s, from, target);
        if from == target {
          dropped := front;
        }
      case CallRemove(pid) => RemoveTouchesNoQueue(s, pid);
    }
  }

  lemma RemoveTouchesNoQueue<R>(s: Lists<R>, pid: int)
    ensures Removed(s, pid).queues == s.queues
  {
  }

  /** Two steps of a queue: `dropped` and `output` leave `a`, `input` comes in, and then `later` leaves and `pushed` comes in. */
  lemma Regroup<T>(a: seq<T>, input: seq<T>, dropped: seq<T>, output: seq<T>, b: seq<T>, pushed: seq<T>)
    requires a + input == dropped + output + b
    ensures a + (input + pushed) == dropped + (output + (b + pushed))
  {
    assert a + (input + pushed) == (a + input) + pushed;
    assert (dropped + output + b) + pushed == dropped + (output + (b + pushed));
  }

  lemma Associates<T>(a: seq<T>, b: seq<T>, c: seq<T>)
    ensures a + (b + c) == (a + b) + c
  {
  }

  lemma OrderJoins<T>(a: seq<T>, input: seq<T>, dropped: seq<T>, output: seq<T>, b: seq<T>, pushed: seq<T>,
                      later: seq<T>, left: seq<T>)
    requires a + input == dropped + output + b && Subsequence(later + left, b + pushed)
    ensures Subsequence((output + later) + left, a + (input + pushed))
  {
    hide Subsequence;
    Regroup(a, input, dropped, output, b, pushed);
    SubsequenceOfItself(output);
    SubsequencesJoin(output, output, later + left, b + pushed);
    Associates(output, later, left);
    LeaveOut(dropped, output + (later + left), output + (b + pushed));
  }

  lemma LeaveOut<T>(a: seq<T>, b: seq<T>, c: seq<T>)
    requires Subsequence(b, c)
    ensures Subsequence(b, a + c)
  {
    assert Subsequence([], a);
    SubsequencesJoin([], a, b, c);
    assert [] + b == b;
  }

  lemma OthersJoinOn<R>(a: seq<Entry<R>>, input: seq<Entry<R>>, dropped: seq<Entry<R>>, output: seq<Entry<R>>,
                        b: seq<Entry<R>>, pushed: seq<Entry<R>>, later: seq<Entry<R>>, left: seq<Entry<R>>, pids: set<int>)
    requires a + input == dropped + output + b && Others(dropped, pids) == []
    requires Others(b + pushed, pids) == Others(later + left, pids)
    ensures Others(a + (input + pushed), pids) == Others((output + later) + left, pids)
  {
    hide Others;
    Regroup(a, input, dropped, output, b, pushed);
    OthersSame(dropped, output, b + pushed, later + left, pids);
    Associates(output, later, left);
  }

  lemma OthersSame<R>(dropped: seq<Entry<R>>, output: seq<Entry<R>>, x: seq<Entry<R>>, y: seq<Entry<R>>, pids: set<int>)
    requires Others(dropped, pids) == [] && Others(x, pids) == Others(y, pids)
    ensures Others(dropped + (output + x), pids) == Others(output + y, pids)
  {
    OthersJoin(dropped, output + x, pids);
    OthersJoin(output, x, pids);
    OthersJoin(output, y, pids);
  }

  /** Whatever is removed, the pops of a target return entries in the order of their pushes, and so does the queue go on. */
  lemma {:induction false} InOrder<R>(s: Lists<R>, cs: seq<Call<R>>, target: string)
    ensures Subsequence(PoppedFrom(s, cs, target) + EntriesOf(Final(s, cs).queues, target),
              EntriesOf(s.queues, target) + PushedTo(cs, target))
    decreases |cs|
  {
    if cs == [] {
      SubsequenceOfItself(EntriesOf(s.queues, target));
      assert [] + EntriesOf(s.queues, target) == EntriesOf(s.queues, target);
      assert EntriesOf(s.queues, target) + [] == EntriesOf(s.queues, target);
    } else {
      hide Step, PushedTo, PoppedFrom, EntriesOf, Subsequence;
      var t := Step(s, cs[0]).0;
      var dropped := FirstCall(s, cs, target);
      InOrder(t, cs[1..], target);
      OrderJoins(EntriesOf(s.queues, target), PushedTo([cs[0]], target), dropped, PoppedFrom(s, [cs[0]], target),
                 EntriesOf(t.queues, target), PushedTo(cs[1..], target), PoppedFrom(t, cs[1..], target),
                 EntriesOf(Final(s, cs).queues, target));
    }
  }

  /** The entries of these processes are all live. */
  ghost predicate LiveBut<R>(s: Lists<R>, pids: set<int>) {
    forall pid :: pid !in pids ==> Present(s, pid) == Queued(s.queues, pid)
  }

  lemma StepLive<R>(s: Lists<R>, c: Call<R>, pids: set<int>)
    requires LiveBut(s, pids) && (c.CallRemove? ==> c.pid in pids)
    ensures LiveBut(Step(s, c).0, pids)
  {
    hide Pushed, Popped, Removed;
    var t := Step(s, c).0;
    forall pid | pid !in pids
      ensures Present(t, pid) == Queued(t.queues, pid)
    {
      match c {
        case CallPush(target, e) => PushCounts(s, target, e, pid);
        case CallPop(target) => PopLive(s, target, pid);
        case CallRemove(p) => RemoveTouchesNoQueue(s, p); RemovedPresent(s, p, pid);
      }
    }
  }

  lemma RemovedPresent<R>(s: Lists<R>, pid: int, p: int)
    ensures Present(Removed(s, pid), p) == if p == pid then 0 else Present(s, p)
  {
    DeletedAll(s.presence, pid, p);
  }

  lemma PopLive<R>(s: Lists<R>, target: string, pid: int)
    requires Present(s, pid) == Queued(s.queues, pid)
    ensures var t := Popped(s, target).0; Present(t, pid) == Queued(t.queues, pid)
  {
    var i := Find(s.queues, target);
    if i < |s.queues| {
      PopPid(s, target, pid);
      var r := PopEntries(s.queues[i].entries, s.presence);
      PopCounts(s.queues[i].entries, s.presence, pid);
      QueuedUpdate(s.queues, i, Queue(target, r.1), pid);
    }
  }

  lemma {:induction false} QueuedIsCounted<R>(queues: seq<Queue<R>>, target: string, e: Entry<R>)
    requires e in EntriesOf(queues, target)
    ensures Queued(queues, e.pid) > 0
  {
    CountIn(EntriesOf(queues, target), e);
    QueuedAtLeast(queues, Find(queues, target), e.pid);
  }

  lemma {:induction false} CountIn<R>(entries: seq<Entry<R>>, e: Entry<R>)
    requires e in entries
    ensures CountPid(entries, e.pid) > 0
  {
    if entries[0] != e {
      CountIn(entries[1..], e);
    }
  }

  /** Only entries of processes in `pids` are dropped. */
  lemma DropsStale<R>(s: Lists<R>, pids: set<int>, target: string, dropped: seq<Entry<R>>)
    requires LiveBut(s, pids) && dropped <= EntriesOf(s.queues, target)
    requires forall e :: e in dropped ==> e.pid !in s.presence
    ensures Others(dropped, pids) == []
  {
    forall e | e in dropped
      ensures e.pid in pids
    {
      QueuedIsCounted(s.queues, target, e);
      assert e.pid in s.presence <==> Present(s, e.pid) > 0;
    }
    NoOthers(dropped, pids);
  }

  lemma {:induction false} NoneLost<R>(s: Lists<R>, cs: seq<Call<R>>, target: string, pids: set<int>)
    requires LiveBut(s, pids) && RemovedPids(cs) <= pids
    ensures Others(EntriesOf(s.queues, target) + PushedTo(cs, target), pids) ==
            Others(PoppedFrom(s, cs, target) + EntriesOf(Final(s, cs).queues, target), pids)
    decreases |cs|
  {
    if cs == [] {
      assert [] + EntriesOf(s.queues, target) == EntriesOf(s.queues, target) + [];
    } else {
      hide Step, PushedTo, PoppedFrom, EntriesOf, Others, LiveBut;
      var t := Step(s, cs[0]).0;
      var dropped := FirstCall(s, cs, target);
      assert cs[0].CallRemove? ==> cs[0].pid in RemovedPids(cs);
      StepLive(s, cs[0], pids);
      NoneLost(t, cs[1..], target, pids);
      DropsStale(s, pids, target, dropped);
      OthersJoinOn(EntriesOf(s.queues, target), PushedTo([cs[0]], target), dropped, PoppedFrom(s, [cs[0]], target),
                   EntriesOf(t.queues, target), PushedTo(cs[1..], target), PoppedFrom(t, cs[1..], target),
                   EntriesOf(Final(s, cs).queues, target), pids);
    }
  }

  /**
   * In every run, the pops of a target return entries in the order of their pushes, each at most once;
   * the entries still queued come after them.
   */
  lemma PopsInOrder<R>(cs: seq<Call<R>>, target: string)
    ensures Subsequence(PoppedFrom(Empty<R>(), cs, target) + EntriesOf(Final(Empty<R>(), cs).queues, target),
              PushedTo(cs, target))
  {
    hide PushedTo, PoppedFrom, Final, Subsequence;
    assert EntriesOf(Empty<R>().queues, target) == [];
    InOrder(Empty<R>(), cs, target);
    assert [] + PushedTo(cs, target) == PushedTo(cs, target);
  }

  /** In every run, the entries of the processes that are not removed are all popped, in order, or still queued. */
  lemma RemovesOnlyRemoved<R>(cs: seq<Call<R>>, target: string)
    ensures Others(PushedTo(cs, target), RemovedPids(cs)) ==
            Others(PoppedFrom(Empty<R>(), cs, target), RemovedPids(cs))
            + Others(EntriesOf(Final(Empty<R>(), cs).queues, target), RemovedPids(cs))
  {
    hide PushedTo, PoppedFrom, Final, Others;
    var out, left := PoppedFrom(Empty<R>(), cs, target), EntriesOf(Final(Empty<R>(), cs).queues, target);
    assert EntriesOf(Empty<R>().queues, target) == [];
    NoneLost(Empty<R>(), cs, target, RemovedPids(cs));
    assert [] + PushedTo(cs, target) == PushedTo(cs, target);
    OthersJoin(out, left, RemovedPids(cs));
  }

  /** First in, first out: in every run without removals, what was pushed was popped, in order, or is still queued. */
  lemma FirstInFirstOut<R>(cs: seq<Call<R>>, target: string)
    requires forall c :: c in cs ==> !c.CallRemove?
    ensures PushedTo(cs, target) ==
            PoppedFrom(Empty<R>(), cs, target) + EntriesOf(Final(Empty<R>(), cs).queues, target)
  {
    RemovesOnlyRemoved(cs, target);
    assert RemovedPids(cs) == {};
    AllOthers(PushedTo(cs, target));
    AllOthers(PoppedFrom(Empty<R>(), cs, target));
    AllOthers(EntriesOf(Final(Empty<R>(), cs).queues, target));
  }

  // ---------- the lists in place ----------

  class Waiting<R> {
    var queues: seq<Queue<R>>
    var presence: seq<int>

    ghost function Contents(): Lists<R>
      reads this
    {
      Lists(queues, presence)
    }

    constructor ()
      ensures Contents() == Lists([], [])
    {
      queues, presence := [], [];
    }

    /** Searches the target list. */
    method Search(target: string) returns (i: nat)
      ensures i == Find(queues, target)
    {
      i := 0;
      while i < |queues| && queues[i].target != target
        invariant i <= |queues|
        invariant forall j :: 0 <= j < i ==> queues[j].target != target
      {
        i := i + 1;
      }
      FindIs(queues, target, i);
    }

    method Push(target: string, e: Entry<R>)
      modifies this
      ensures Contents() == Pushed(old(Contents()), target, e)
      ensures forall t :: EntriesOf(queues, t) == old(EntriesOf(queues, t)) + if t == target then [e] else []
    {
      var i := Search(target);
      if i == |queues| {
        queues := queues + [Queue(target, [e])];
      } else {
        queues := queues[i := Queue(target, queues[i].entries + [e])];
      }
      presence := presence + [e.pid];
      forall t
        ensures EntriesOf(queues, t) == old(EntriesOf(queues, t)) + if t == target then [e] else []
      {
        PushAtEnd(old(Contents()), target, e, t);
      }
    }

    /** Takes entries from the queue of a target until it finds one whose process is present. */
    method Pop(target: string) returns (r: Option<Entry<R>>)
      modifies this
      ensures (Contents(), r) == Popped(old(Contents()), target)
    {
      var i := Search(target);
      if i == |queues| {
        return None;
      }
      ghost var was := queues[i].entries;
      while queues[i].entries != []
        invariant presence == old(presence) && |queues| == |old(queues)| && i == Find(old(queues), target)
        invariant queues == old(queues)[i := Queue(target, queues[i].entries)]
        invariant PopEntries(was, presence) == PopEntries(queues[i].entries, presence)
        decreases |queues[i].entries|
      {
        var e := queues[i].entries[0];
        queues := queues[i := Queue(target, queues[i].entries[1..])];
        assert queues == old(queues)[i := Queue(target, queues[i].entries)];
        if e.pid in presence {
          presence := DeleteFirst(presence, e.pid);
          return Some(e);
        }
      }
      return None;
    }

    /** Deletes all occurrences of a process from the presence list. */
    method Remove(pid: int)
      modifies this
      ensures Contents() == Removed(old(Contents()), pid)
    {
      while pid in presence
        invariant queues == old(queues) && DeleteAll(presence, pid) == DeleteAll(old(presence), pid)
        decreases |presence|
      {
        DeleteOne(presence, pid);
        presence := DeleteFirst(presence, pid);
      }
      NothingToDelete(presence, pid);
    }
  }

  lemma {:induction false} DeleteOne(presence: seq<int>, pid: int)
    requires pid in presence
    ensures DeleteAll(DeleteFirst(presence, pid), pid) == DeleteAll(presence, pid)
    ensures |DeleteFirst(presence, pid)| < |presence|
  {
    if presence[0] != pid {
      DeleteOne(presence[1..], pid);
      var rest := DeleteFirst(presence[1..], pid);
      assert ([presence[0]] + rest)[1..] == rest;
    }
  }

  lemma {:induction false} NothingToDelete(presence: seq<int>, pid: int)
    requires pid !in presence
    ensures DeleteAll(presence, pid) == presence
  {
    if presence != [] {
      NothingToDelete(presence[1..], pid);
    }
  }
}
