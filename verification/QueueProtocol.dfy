/**
 The queries in flight (tg/queue.c) as a system of steps. Every stretch of code
 that runs under a mutex is one step; threads interleave in any order.
 */
module QueueProtocol {
  import opened LinkedLists
  import opened Options
  import opened Pigeonhole

  /** What an answer turns out to be: null, packed, a complaint about the message, an error, or a result. */
  datatype Answer = NoTl | Gzip(inner: nat) | BadMsg | RpcError(code: nat) | Result(value: nat)

  /** What `on_done` is given. */
  datatype Given = Nothing | Unpacked(inner: nat) | Error(code: nat) | Value(value: nat)

  function GivenFor(a: Answer): Given {
    match a
    case NoTl => Nothing
    case Gzip(inner) => Unpacked(inner)
    case BadMsg => Nothing
    case RpcError(code) => Error(code)
    case Result(value) => Value(value)
  }

  /** Who holds the mutex `m` of a query. */
  datatype Hold = Free | Answering(id: nat, answer: Answer) | Cancelling

  datatype Phase = Created | Running | Gone

  /** `got` records the calls of `on_done`: the id answered and what was given. */
  datatype Query = Query(phase: Phase, loop: bool, msgid: nat, hold: Hold, callback: bool, got: seq<(nat, Given)>)

  /** All queries ever made, and the list `tg->queue`, front first. */
  datatype State = State(queries: map<nat, Query>, list: seq<nat>)

  datatype Step =
    | Start(q: nat, callback: bool)   // tg_queue_new
    | NoSocket(q: nat)                // tg_run_queue gives up before the list
    | Enlist(q: nat)                  // list_add under queuem
    | Resend(q: nat)                  // tg_header clears the old message id first
    | Sent(q: nat, id: nat)           // tg_header stored a new message id, before anything in tg_send can fail
    | SendFailed(q: nat)              // tg_send failed: loop = false
    | Reply(id: nat, answer: Answer)  // catched_tl: cut under queuem, then lock m
    | Finish(q: nat)                  // catched_tl: on_done under m
    | CancelAll                       // tg_queue_cancell_all
    | Cancel(id: nat)                 // tg_queue_cancell_queue: cut under queuem, then lock m
    | Stop(q: nat)                    // tg_queue_cancell_queue: loop = false under m
    | Exit(q: nat)                    // end of tg_run_queue: cut by its own id under queuem

  const Init := State(map[], [])

  /** Entries whose query is known, with that message id. */
  function HasId(s: State, id: nat): nat -> bool {
    q => q in s.queries && s.queries[q].msgid == id
  }

  predicate In(s: State, q: nat, phase: Phase) {
    q in s.queries && s.queries[q].phase == phase
  }

  /** A step whose thread would not block. */
  predicate Can(s: State, step: Step) {
    match step
    case Start(q, _) => q !in s.queries
    case NoSocket(q) => In(s, q, Created)
    case Enlist(q) => In(s, q, Created)
    case Resend(q) => In(s, q, Running)
    case Sent(q, _) => In(s, q, Running)
    case SendFailed(q) => HasSent(s, q)
    case Reply(id, _) => CutFree(s, id)
    case Finish(q) => q in s.queries && s.queries[q].hold.Answering?
    case CancelAll => forall q :: q in s.list ==> q in s.queries
    case Cancel(id) => CutFree(s, id)
    case Stop(q) => q in s.queries && s.queries[q].hold.Cancelling?
    case Exit(q) => HasSent(s, q)
  }

  /** The thread runs and is past the call of `tg_send` it always makes first. */
  predicate HasSent(s: State, q: nat) {
    In(s, q, Running) && s.queries[q].msgid > 0
  }

  /** Locking the mutex of the query that `list_cut` finds does not block. */
  predicate CutFree(s: State, id: nat) {
    var f := Found(s.list, HasId(s, id));
    f.Some? ==> f.value in s.queries && s.queries[f.value].hold.Free?
  }

  function Set(s: State, q: nat, query: Query): State {
    s.(queries := s.queries[q := query])
  }

  function CutAndHold(s: State, id: nat, hold: Hold): State
    requires CutFree(s, id)
  {
    var f := Found(s.list, HasId(s, id));
    if f.None? then s
    else
      State(s.queries[f.value := s.queries[f.value].(hold := hold)], Without(s.list, HasId(s, id)))
  }

  function Do(s: State, step: Step): State
    requires Can(s, step)
  {
    match step
    case Start(q, callback) => Set(s, q, Query(Created, true, 0, Free, callback, []))
    case NoSocket(q) => Set(s, q, s.queries[q].(phase := Gone))
    case Enlist(q) => Set(s, q, s.queries[q].(phase := Running)).(list := [q] + s.list)
    case Resend(q) => Set(s, q, s.queries[q].(msgid := 0))
    case Sent(q, id) => Set(s, q, s.queries[q].(msgid := id))
    case SendFailed(q) => Set(s, q, s.queries[q].(loop := false))
    case Reply(id, answer) => CutAndHold(s, id, Answering(id, answer))
    case Finish(q) => Set(s, q, Finished(s.queries[q]))
    case CancelAll =>
      State(map q | q in s.queries ::
              if q in s.list && s.queries[q].hold.Free? then s.queries[q].(loop := false) else s.queries[q],
            [])
    case Cancel(id) => CutAndHold(s, id, Cancelling)
    case Stop(q) => Set(s, q, s.queries[q].(loop := false, hold := Free))
    case Exit(q) =>
      Set(s, q, s.queries[q].(phase := Gone)).(list := Without(s.list, HasId(s, s.queries[q].msgid)))
  }

  /** The second half of `catched_tl`; a null answer leaves the receive loop running. */
  function Finished(query: Query): Query
    requires query.hold.Answering?
  {
    var a := query.hold.answer;
    var got := if query.callback then query.got + [(query.hold.id, GivenFor(a))] else query.got;
    query.(got := got, hold := Free, loop := query.loop && a.NoTl?)
  }

  // ---------- what every step keeps ----------

  /** A query not listed any more, and nobody about to answer it. */
  predicate Settled(s: State, q: nat) {
    q in s.queries && q !in s.list && !s.queries[q].phase.Created? && !s.queries[q].hold.Answering?
  }

  predicate QueryOk(s: State, q: nat)
    requires q in s.queries
  {
    var x := s.queries[q];
    && (x.phase.Created? || q in s.list ==> x.hold.Free? && x.got == [])
    && (x.phase.Created? ==> q !in s.list)
    && (!x.hold.Free? ==> x.got == [])
    && |x.got| <= 1
  }

  ghost predicate Inv(s: State) {
    && Distinct(s.list)
    && (forall q :: q in s.list ==> q in s.queries)
    && forall q :: q in s.queries ==> QueryOk(s, q)
  }

  lemma {:induction false} FirstMatch<T>(s: seq<T>, cmp: T -> bool) returns (k: nat)
    ensures k <= |s| && (forall i :: 0 <= i < k ==> !cmp(s[i])) && (k < |s| ==> cmp(s[k]))
  {
    if s == [] || cmp(s[0]) {
      k := 0;
    } else {
      var j := FirstMatch(s[1..], cmp);
      k := j + 1;
      forall i | 0 <= i < k
        ensures !cmp(s[i])
      {
        assert i > 0 ==> s[i] == s[1..][i - 1];
      }
    }
  }

  /** Cutting a list of distinct entries removes the entry found and nothing else. */
  lemma CutOne(list: seq<nat>, cmp: nat -> bool)
    requires Distinct(list)
    ensures Distinct(Without(list, cmp))
    ensures Found(list, cmp).None? ==> Without(list, cmp) == list && forall q :: q in list ==> !cmp(q)
    ensures Found(list, cmp).Some? ==>
              var v := Found(list, cmp).value;
              v in list && cmp(v) && forall q :: q in Without(list, cmp) <==> q in list && q != v
  {
    var k := FirstMatch(list, cmp);
    CutMeans(list, cmp, k);
    hide Found, Without;
    if k < |list| {
      CutAt(list, k);
    } else {
      assert forall q :: q in list ==> exists i :: 0 <= i < |list| && list[i] == q;
    }
  }

  lemma CutAt(list: seq<nat>, k: nat)
    requires Distinct(list) && k < |list|
    ensures Distinct(list[..k] + list[k + 1..])
    ensures forall q :: q in list[..k] + list[k + 1..] <==> q in list && q != list[k]
  {
    var rest := list[..k] + list[k + 1..];
    forall q | q in list && q != list[k]
      ensures q in rest
    {
      var i :| 0 <= i < |list| && list[i] == q;
      assert if i < k then rest[i] == q else rest[i - 1] == q;
    }
  }

  /** Nobody ever waits for the mutex of a listed query, so `trylock` in `tg_queue_cancell_all` always succeeds. */
  lemma ListedAreFree(s: State, id: nat)
    requires Inv(s)
    ensures forall q :: q in s.list ==> q in s.queries && s.queries[q].hold.Free?
    ensures CutFree(s, id)
  {
    forall q | q in s.list
      ensures s.queries[q].hold.Free?
    {
      assert QueryOk(s, q);
    }
    assert Distinct(s.list);
    CutOne(s.list, HasId(s, id));
  }

  lemma InvParts(s: State)
    ensures Inv(s) <==>
              && Distinct(s.list) && (forall q :: q in s.list ==> q in s.queries)
              && forall q :: q in s.queries ==> QueryOk(s, q)
  {
  }

  lemma CutKeeps(s: State, id: nat, hold: Hold)
    requires Inv(s) && CutFree(s, id)
    ensures Inv(CutAndHold(s, id, hold))
  {
    InvParts(s);
    var cmp := HasId(s, id);
    CutOne(s.list, cmp);
    var t := CutAndHold(s, id, hold);
    hide Found, Without;
    forall q | q in t.queries
      ensures QueryOk(t, q)
    {
      assert QueryOk(s, q);
    }
  }

  lemma ExitKeeps(s: State, q: nat)
    requires Inv(s) && HasSent(s, q)
    ensures Inv(Do(s, Exit(q)))
  {
    InvParts(s);
    CutOne(s.list, HasId(s, s.queries[q].msgid));
    var t := Do(s, Exit(q));
    hide Found, Without;
    forall p | p in t.queries
      ensures QueryOk(t, p)
    {
      assert QueryOk(s, p);
    }
  }

  /** Every step keeps the invariant. */
  lemma StepKeeps(s: State, step: Step)
    requires Inv(s) && Can(s, step)
    ensures Inv(Do(s, step))
  {
    match step {
      case Reply(id, answer) => CutKeeps(s, id, Answering(id, answer));
      case Cancel(id) => CutKeeps(s, id, Cancelling);
      case Exit(q) => ExitKeeps(s, q);
      case _ =>
        var t := Do(s, step);
        forall q | q in t.queries
          ensures QueryOk(t, q)
        {
          assert q in s.queries ==> QueryOk(s, q);
        }
    }
  }

  // ---------- whole runs ----------

  ghost predicate IsRun(ss: seq<State>, steps: seq<Step>) {
    && |ss| == |steps| + 1
    && forall i :: 0 <= i < |steps| ==> Can(ss[i], steps[i]) && ss[i + 1] == Do(ss[i], steps[i])
  }

  lemma {:induction false} RunKeeps(ss: seq<State>, steps: seq<Step>, i: nat)
    requires IsRun(ss, steps) && Inv(ss[0]) && i < |ss|
    ensures Inv(ss[i])
  {
    if i > 0 {
      RunKeeps(ss, steps, i - 1);
      StepKeeps(ss[i - 1], steps[i - 1]);
    }
  }

  /** In every interleaving `on_done` runs at most once for each query, and nobody blocks on a listed query. */
  lemma AtMostOnce(ss: seq<State>, steps: seq<Step>, i: nat)
    requires IsRun(ss, steps) && ss[0] == Init && i < |ss|
    ensures forall q :: q in ss[i].queries ==> |ss[i].queries[q].got| <= 1
    ensures forall q :: q in ss[i].list ==> q in ss[i].queries && ss[i].queries[q].hold.Free?
  {
    RunKeeps(ss, steps, i);
    ListedAreFree(ss[i], 0);
    forall q | q in ss[i].queries
      ensures |ss[i].queries[q].got| <= 1
    {
      assert QueryOk(ss[i], q);
    }
  }

  /** A settled query is left alone by every step; its loop is never started again. */
  lemma SettledStays(s: State, step: Step, q: nat)
    requires Inv(s) && Can(s, step) && Settled(s, q)
    ensures Settled(Do(s, step), q)
    ensures Do(s, step).queries[q].got == s.queries[q].got
    ensures !s.queries[q].loop ==> !Do(s, step).queries[q].loop
  {
    InvParts(s);
    match step {
      case Reply(id, _) => CutOne(s.list, HasId(s, id));
      case Cancel(id) => CutOne(s.list, HasId(s, id));
      case Exit(p) => CutOne(s.list, HasId(s, s.queries[p].msgid));
      case _ =>
    }
  }

  lemma {:induction false} SettledForever(ss: seq<State>, steps: seq<Step>, q: nat, i: nat, j: nat)
    requires IsRun(ss, steps) && Inv(ss[0]) && i <= j < |ss| && Settled(ss[i], q)
    ensures Settled(ss[j], q) && ss[j].queries[q].got == ss[i].queries[q].got
    ensures !ss[i].queries[q].loop ==> !ss[j].queries[q].loop
    decreases j
  {
    if i < j {
      SettledForever(ss, steps, q, i, j - 1);
      RunKeeps(ss, steps, j - 1);
      SettledStays(ss[j - 1], steps[j - 1], q);
    }
  }

  /** A query listed when `tg_queue_cancell_all` takes the lock stops, and `on_done` never runs for it. */
  lemma CancelAllIsFinal(ss: seq<State>, steps: seq<Step>, q: nat, i: nat, j: nat)
    requires IsRun(ss, steps) && ss[0] == Init && i < j < |ss|
    requires steps[i] == CancelAll && q in ss[i].list
    ensures q in ss[j].queries && ss[j].queries[q].got == [] && !ss[j].queries[q].loop
  {
    RunKeeps(ss, steps, i);
    ListedAreFree(ss[i], 0);
    assert QueryOk(ss[i], q);
    SettledForever(ss, steps, q, i + 1, j);
  }

  /** A query that `tg_queue_cancell_queue` finds never has `on_done` run either. */
  lemma CancelIsFinal(ss: seq<State>, steps: seq<Step>, id: nat, i: nat, j: nat)
    requires IsRun(ss, steps) && ss[0] == Init && i < j < |ss|
    requires steps[i] == Cancel(id) && Found(ss[i].list, HasId(ss[i], id)).Some?
    ensures var q := Found(ss[i].list, HasId(ss[i], id)).value; q in ss[j].queries && ss[j].queries[q].got == []
  {
    RunKeeps(ss, steps, i);
    InvParts(ss[i]);
    ListedAreFree(ss[i], id);
    CutOne(ss[i].list, HasId(ss[i], id));
    var q := Found(ss[i].list, HasId(ss[i], id)).value;
    assert QueryOk(ss[i], q);
    SettledForever(ss, steps, q, i + 1, j);
  }

  // ---------- answers ----------

  /** Two queries share a message id only while neither has one. */
  predicate UniqueIds(s: State) {
    forall p, q :: p in s.queries && q in s.queries && p != q && s.queries[p].msgid == s.queries[q].msgid ==>
      s.queries[p].msgid == 0
  }

  /** `tg_send` stores an id that is not zero and that no other query has. */
  predicate FreshId(s: State, step: Step) {
    step.Sent? ==> step.id > 0 && forall p :: p in s.queries && p != step.q ==> s.queries[p].msgid != step.id
  }

  lemma UniqueStays(s: State, step: Step)
    requires Can(s, step) && UniqueIds(s) && FreshId(s, step)
    ensures UniqueIds(Do(s, step))
  {
    hide Found, Without;
    var t := Do(s, step);
    match step {
      case Start(q, _) => assert t.queries[q].msgid == 0;
      case Resend(q) => assert t.queries[q].msgid == 0;
      case Sent(q, id) =>
      case _ => assert forall p :: p in t.queries ==> p in s.queries && t.queries[p].msgid == s.queries[p].msgid;
    }
  }

  ghost predicate FreshRun(ss: seq<State>, steps: seq<Step>) {
    IsRun(ss, steps) && ss[0] == Init && forall i :: 0 <= i < |steps| ==> FreshId(ss[i], steps[i])
  }

  lemma {:induction false} RunUnique(ss: seq<State>, steps: seq<Step>, i: nat)
    requires FreshRun(ss, steps) && i < |ss|
    ensures UniqueIds(ss[i])
  {
    if i > 0 {
      RunUnique(ss, steps, i - 1);
      UniqueStays(ss[i - 1], steps[i - 1]);
    }
  }

  /** An answer takes exactly the query with its id off the list, and touches no other. */
  lemma ReplyFindsItsQuery(s: State, q: nat, answer: Answer)
    requires Inv(s) && UniqueIds(s) && q in s.list && q in s.queries && s.queries[q].msgid > 0
    ensures CutFree(s, s.queries[q].msgid)
    ensures var t := Do(s, Reply(s.queries[q].msgid, answer));
            && t.queries == s.queries[q := s.queries[q].(hold := Answering(s.queries[q].msgid, answer))]
            && Distinct(t.list) && forall p :: p in t.list <==> p in s.list && p != q
  {
    var id := s.queries[q].msgid;
    ListedAreFree(s, id);
    CutOne(s.list, HasId(s, id));
    hide Found, Without;
    assert HasId(s, id)(q);
    assert Found(s.list, HasId(s, id)).value == q;
  }

  /** Caught by an answer: `on_done` gets just that answer, once. */
  predicate Caught(s: State, q: nat, id: nat, answer: Answer) {
    && q in s.queries && q !in s.list && !s.queries[q].phase.Created?
    && var x := s.queries[q];
       || (x.hold == Answering(id, answer) && x.got == [])
       || (x.hold == Free && x.got == if x.callback then [(id, GivenFor(answer))] else [])
  }

  lemma CaughtStays(s: State, step: Step, q: nat, id: nat, answer: Answer)
    requires Inv(s) && Can(s, step) && Caught(s, q, id, answer)
    ensures Caught(Do(s, step), q, id, answer)
    ensures step == Finish(q) ==> Do(s, step).queries[q].hold.Free?
  {
    InvParts(s);
    match step {
      case Reply(i, _) => CutOne(s.list, HasId(s, i));
      case Cancel(i) => CutOne(s.list, HasId(s, i));
      case Exit(p) => CutOne(s.list, HasId(s, s.queries[p].msgid));
      case _ =>
    }
  }

  lemma {:induction false} CaughtForever(ss: seq<State>, steps: seq<Step>, q: nat, id: nat, answer: Answer, i: nat,
                                         j: nat)
    requires IsRun(ss, steps) && Inv(ss[0]) && i <= j < |ss| && Caught(ss[i], q, id, answer)
    ensures Caught(ss[j], q, id, answer)
    decreases j
  {
    if i < j {
      CaughtForever(ss, steps, q, id, answer, i, j - 1);
      RunKeeps(ss, steps, j - 1);
      CaughtStays(ss[j - 1], steps[j - 1], q, id, answer);
    }
  }

  /**
   With fresh message ids: when an answer arrives for a listed query, that
   query's `on_done` is given that answer and nothing else, ever.
   */
  lemma AnswerReachesItsQuery(ss: seq<State>, steps: seq<Step>, q: nat, answer: Answer, i: nat, j: nat)
    requires FreshRun(ss, steps) && i < j < |ss|
    requires q in ss[i].list && q in ss[i].queries && ss[i].queries[q].msgid > 0
    requires steps[i] == Reply(ss[i].queries[q].msgid, answer)
    ensures Caught(ss[j], q, ss[i].queries[q].msgid, answer)
  {
    RunKeeps(ss, steps, i);
    RunUnique(ss, steps, i);
    assert QueryOk(ss[i], q);
    ReplyFindsItsQuery(ss[i], q, answer);
    CaughtForever(ss, steps, q, ss[i].queries[q].msgid, answer, i + 1, j);
  }

  // ---------- a query leaving by its own id ----------

  /** Every listed entry with the id of `q`, other than `q`, stands behind `q`. */
  predicate NoNamesakeAhead(s: State, q: nat)
    requires q in s.queries
  {
    forall i :: 0 <= i < |s.list| && HasId(s, s.queries[q].msgid)(s.list[i]) && s.list[i] != q ==> q in s.list[..i]
  }

  /** Among distinct entries, the first match is `q` itself unless another match stands before it. */
  lemma FirstIsOwn(list: seq<nat>, cmp: nat -> bool, q: nat)
    requires Distinct(list) && cmp(q)
    ensures Without(list, cmp) == Without(list, p => p == q)
       <==> forall i :: 0 <= i < |list| && cmp(list[i]) && list[i] != q ==> q in list[..i]
  {
    var own := (p: nat) => p == q;
    CutOne(list, cmp);
    CutOne(list, own);
    var k := FirstMatch(list, cmp);
    var m := FirstMatch(list, own);
    CutMeans(list, cmp, k);
    CutMeans(list, own, m);
    hide Found, Without;
    if forall i :: 0 <= i < |list| && cmp(list[i]) && list[i] != q ==> q in list[..i] {
      assert k <= |list| && q !in list[..k];
      assert k < |list| ==> list[k] == q;
      assert m < |list| ==> cmp(list[m]);
    } else {
      var i :| 0 <= i < |list| && cmp(list[i]) && list[i] != q && q !in list[..i];
      assert k < i ==> list[k] == list[..i][k];
      assert list[k] in Without(list, own) && list[k] !in Without(list, cmp);
    }
  }

  /** The end of `tg_run_queue` removes its own entry exactly when no namesake stands ahead of it. */
  lemma ExitCutsItself(s: State, q: nat)
    requires Inv(s) && HasSent(s, q)
    ensures Do(s, Exit(q)).list == Without(s.list, p => p == q) <==> NoNamesakeAhead(s, q)
  {
    InvParts(s);
    FirstIsOwn(s.list, HasId(s, s.queries[q].msgid), q);
    hide Without, Inv, QueryOk, Distinct;
  }

  /** With fresh message ids, a thread that ends takes exactly its own entry off the list, if it is still there. */
  lemma ExitIsExact(ss: seq<State>, steps: seq<Step>, q: nat, i: nat)
    requires FreshRun(ss, steps) && i < |steps| && steps[i] == Exit(q)
    ensures ss[i + 1].list == Without(ss[i].list, p => p == q)
  {
    RunKeeps(ss, steps, i);
    RunUnique(ss, steps, i);
    ExitCutsItself(ss[i], q);
    hide Without, Inv, Found;
  }

  // ---------- what an answer does to its query ----------

  /** A loop that is off stays off. */
  lemma OffStays(s: State, step: Step, q: nat)
    requires Can(s, step) && q in s.queries && !s.queries[q].loop
    ensures q in Do(s, step).queries && !Do(s, step).queries[q].loop
  {
    hide Found, Without;
  }

  lemma {:induction false} OffForever(ss: seq<State>, steps: seq<Step>, q: nat, i: nat, j: nat)
    requires IsRun(ss, steps) && i <= j < |ss| && q in ss[i].queries && !ss[i].queries[q].loop
    ensures q in ss[j].queries && !ss[j].queries[q].loop
    decreases j
  {
    if i < j {
      OffForever(ss, steps, q, i, j - 1);
      OffStays(ss[j - 1], steps[j - 1], q);
    }
  }

  /** Cancelling a query, and failing to send it, end its receive loop for ever. */
  lemma StoppedForEver(ss: seq<State>, steps: seq<Step>, q: nat, i: nat, j: nat)
    requires IsRun(ss, steps) && i < j < |ss|
    requires steps[i] == Stop(q) || steps[i] == SendFailed(q)
    ensures q in ss[j].queries && !ss[j].queries[q].loop
  {
    OffForever(ss, steps, q, i + 1, j);
  }

  /** Whether a query has a callback never changes. */
  lemma CallbackStays(s: State, step: Step, q: nat)
    requires Can(s, step) && q in s.queries
    ensures q in Do(s, step).queries && Do(s, step).queries[q].callback == s.queries[q].callback
  {
    hide Found, Without;
  }

  lemma {:induction false} CallbackForever(ss: seq<State>, steps: seq<Step>, q: nat, i: nat, j: nat)
    requires IsRun(ss, steps) && i <= j < |ss| && q in ss[i].queries
    ensures q in ss[j].queries && ss[j].queries[q].callback == ss[i].queries[q].callback
    decreases j
  {
    if i < j {
      CallbackForever(ss, steps, q, i, j - 1);
      CallbackStays(ss[j - 1], steps[j - 1], q);
    }
  }

  /**
   Once the thread that brought an answer is done with its query, `on_done` has been given the result itself,
   the error, what a packed answer held, or null for a complaint about the message and for a null answer; never
   more than that. The receive loop is off for ever, except after a null answer, which leaves it as it was.
   */
  lemma AnswerIsGiven(ss: seq<State>, steps: seq<Step>, q: nat, id: nat, answer: Answer, i: nat, k: nat, j: nat)
    requires FreshRun(ss, steps) && i < k < j < |ss|
    requires q in ss[i].list && q in ss[i].queries && ss[i].queries[q].msgid == id > 0
    requires steps[i] == Reply(id, answer) && steps[k] == Finish(q)
    ensures q in ss[j].queries && ss[j].queries[q].callback == ss[i].queries[q].callback
    ensures ss[i].queries[q].callback ==>
              match answer
              case Result(v) => ss[j].queries[q].got == [(id, Value(v))]
              case RpcError(c) => ss[j].queries[q].got == [(id, Error(c))]
              case Gzip(x) => ss[j].queries[q].got == [(id, Unpacked(x))]
              case BadMsg => ss[j].queries[q].got == [(id, Nothing)]
              case NoTl => ss[j].queries[q].got == [(id, Nothing)]
    ensures !ss[i].queries[q].callback ==> ss[j].queries[q].got == []
    ensures answer != NoTl ==> !ss[j].queries[q].loop
    ensures q in ss[k].queries && q in ss[k + 1].queries
    ensures answer == NoTl ==> ss[k + 1].queries[q].loop == ss[k].queries[q].loop
  {
    AnswerReachesItsQuery(ss, steps, q, answer, i, k);
    RunKeeps(ss, steps, k);
    CaughtStays(ss[k], steps[k], q, id, answer);
    CallbackForever(ss, steps, q, i, k);
    CallbackForever(ss, steps, q, i, j);
    assert QueryOk(ss[k], q);
    SettledForever(ss, steps, q, k + 1, j);
  }

  // ---------- short runs, state by state ----------

  /** The step can be taken and leads to this state. */
  ghost predicate Leads(s: State, step: Step, t: State) {
    Can(s, step) && Do(s, step) == t
  }

  /** A query on its way, and another one. */
  const Sending := Query(Running, true, 7, Free, true, [])
  const Another := Query(Running, true, 9, Free, false, [])
  const Made := Query(Created, true, 0, Free, true, [])

  /** A list of both, the first one in front; and of the first one alone. */
  const Both := State(map[1 := Sending, 2 := Another], [1, 2])
  const Alone := State(map[1 := Sending], [1])

  /** A new query runs, has no id yet, and keeps its callback. */
  lemma StartRun()
    ensures Leads(Init, Start(1, true), State(map[1 := Made], []))
  {
    hide Found, Without;
  }

  /** It is listed in front. */
  lemma EnlistRun()
    ensures Leads(State(map[1 := Made, 2 := Another], [2]), Enlist(1),
                  State(map[1 := Made.(phase := Running), 2 := Another], [1, 2]))
  {
    hide Found, Without;
  }

  lemma SentRun()
    ensures Leads(State(map[1 := Made.(phase := Running), 2 := Another], [1, 2]), Sent(1, 7), Both)
  {
    hide Found, Without;
  }

  lemma CutFirst()
    ensures Found(Both.list, HasId(Both, 7)) == Some(1) && Without(Both.list, HasId(Both, 7)) == [2]
    ensures Found(Alone.list, HasId(Alone, 7)) == Some(1) && Without(Alone.list, HasId(Alone, 7)) == []
    ensures Found(Alone.list, HasId(Alone, 8)) == None
  {
  }

  /** The answer takes it off the list and holds its mutex. */
  lemma ReplyRun()
    ensures Leads(Both, Reply(7, Result(5)),
                  State(map[1 := Sending.(hold := Answering(7, Result(5))), 2 := Another], [2]))
  {
    CutFirst();
    hide Found, Without;
  }

  /** An answer nobody waits for changes nothing. */
  lemma UnknownRun()
    ensures Leads(Alone, Reply(8, Result(5)), Alone)
  {
    CutFirst();
    hide Found, Without;
  }

  /** The callback is given the result, and the loop ends. */
  lemma FinishRun()
    ensures Leads(State(map[1 := Sending.(hold := Answering(7, Result(5))), 2 := Another], [2]), Finish(1),
                  State(map[1 := Query(Running, false, 7, Free, true, [(7, Value(5))]), 2 := Another], [2]))
  {
    var none: seq<(nat, Given)> := [];
    assert none + [(7, Value(5))] == [(7, Value(5))];
    hide Found, Without;
  }

  /** At its end a query leaves the list. */
  lemma ExitRun()
    ensures Leads(Both, Exit(1), State(map[1 := Sending.(phase := Gone), 2 := Another], [2]))
  {
    CutFirst();
    hide Found, Without;
  }

  /** Cancelling takes it off the list, then stops it. */
  lemma CancelRun()
    ensures Leads(Alone, Cancel(7), State(map[1 := Sending.(hold := Cancelling)], []))
  {
    CutFirst();
    hide Found, Without;
  }

  lemma StopRun()
    ensures Leads(State(map[1 := Sending.(hold := Cancelling)], []), Stop(1),
                  State(map[1 := Sending.(loop := false)], []))
  {
    hide Found, Without;
  }

  /** Cancelling all stops all and empties the list. */
  lemma CancelAllRun()
    ensures Leads(Both, CancelAll, State(map[1 := Sending.(loop := false), 2 := Another.(loop := false)], []))
  {
    hide Found, Without;
  }

  /** A query that cannot be sent stops but stays listed; one that is sent again loses its id. */
  lemma FailedRun()
    ensures Leads(Alone, SendFailed(1), State(map[1 := Sending.(loop := false)], [1]))
  {
    hide Found, Without;
  }

  lemma ResendRun()
    ensures Leads(Alone, Resend(1), State(map[1 := Sending.(msgid := 0)], [1]))
  {
    hide Found, Without;
  }

  /** Without a socket a query is over before it is listed. */
  lemma NoSocketRun()
    ensures Leads(State(map[1 := Made], []), NoSocket(1), State(map[1 := Made.(phase := Gone)], []))
  {
    hide Found, Without;
  }
}
