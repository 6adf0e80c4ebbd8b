/** At-most-once RPC: clients with their acknowledgement windows and a server with its reply
    windows, over a network that loses, delays, reorders and repeats requests
    (mit_6.824/rpc/rpc.cc). Client nonces are nonzero and transaction ids do not wrap around. */
module RpcSystem {
  import opened Options
  import opened RpcServer
  import RpcClient

  /** A client, by its nonce. */
  datatype Id = Id(nonce: nat)

  datatype Call = Call(clt: Id, xid: nat)

  datatype Request = Request(call: Call, xidRep: nat)

  datatype Reply = Reply(call: Call, bytes: string)

  /** The next transaction id, the ids that are finished (a reply arrived or the call gave up)
      and the acknowledgement window. */
  datatype Client = Client(next: nat, finished: set<nat>, window: seq<nat>)

  ghost function Front(cl: Client): nat {
    if cl.window == [] then 0 else cl.window[0]
  }

  datatype Sys = Sys(
    clients: map<Id, Client>,
    requests: set<Request>,          // every request ever sent
    replies: set<Reply>,             // every reply ever sent
    windows: map<Id, Window>,
    running: set<Call>,              // handlers at work
    started: seq<Call>,              // every call that was classified NEW, in order
    results: map<Call, string>)      // what the handler of a call returned

  datatype Step =
    | NewCall(c: Id)
    | Finish(c: Id, xid: nat)
    | Receive(req: Request)
    | Complete(call: Call, bytes: string)

  ghost function WindowFor(s: Sys, c: Id): Window {
    if c in s.windows then s.windows[c] else Window([], 0)
  }

  ghost predicate Enabled(s: Sys, step: Step) {
    match step
    case NewCall(c) => c in s.clients
    case Finish(c, xid) => c in s.clients && 0 < xid < s.clients[c].next && s.clients[c].window != []
    case Receive(req) => req in s.requests
    case Complete(call, bytes) => call in s.running
  }

  ghost function Apply(s: Sys, step: Step): Sys
    requires Enabled(s, step)
  {
    match step
    case NewCall(c) =>
      var cl := s.clients[c];
      s.(clients := s.clients[c := cl.(next := cl.next + 1)],
        requests := s.requests + {Request(Call(c, cl.next), Front(cl))})
    case Finish(c, xid) =>
      var cl := s.clients[c];
      s.(clients := s.clients[c := cl.(finished := cl.finished + {xid}, window := RpcClient.Report(cl.window, xid))])
    case Receive(req) =>
      var c := req.call.clt;
      var (w, st) := Check(WindowFor(s, c), req.call.xid, req.xidRep);
      var s' := s.(windows := s.windows[c := w]);
      (match st
       case NEW => s'.(running := s.running + {req.call}, started := s.started + [req.call])
       case DONE(b) => s'.(replies := s.replies + {Reply(req.call, b)})
       case _ => s')
    case Complete(call, bytes) =>
      var s' := s.(running := s.running - {call}, results := s.results[call := bytes],
        replies := s.replies + {Reply(call, bytes)});
      (match AddReply(WindowFor(s, call.clt), call.xid, bytes)
       case Some(w) => s'.(windows := s.windows[call.clt := w])
       case None => s')
  }

  ghost predicate Init(s: Sys) {
    && s.requests == {} && s.replies == {} && s.windows == map[] && s.running == {} && s.started == []
    && s.results == map[]
    && forall c :: c in s.clients ==> s.clients[c] == Client(1, {0}, [0])
  }

  // ----- the invariant

  ghost predicate ClientOk(cl: Client) {
    RpcClient.WindowOk(cl.window, cl.finished) && forall x :: x in cl.finished ==> x < cl.next
  }

  ghost predicate RequestOk(s: Sys, req: Request) {
    && req.call.clt in s.clients
    && var cl := s.clients[req.call.clt];
       req.xidRep < req.call.xid < cl.next && req.xidRep <= Front(cl)
  }

  ghost predicate WindowsOk(s: Sys) {
    forall c :: c in s.windows ==>
      c in s.clients && WindowOk(s.windows[c]) && s.windows[c].maxRep <= Front(s.clients[c])
  }

  /** A call that was started is acknowledged or in the window. */
  ghost predicate StartedOk(s: Sys, call: Call) {
    call.clt in s.windows && (call.xid <= s.windows[call.clt].maxRep || Seen(s.windows[call.clt].slots, call.xid))
  }

  /** A slot belongs to a call that was started, and holds what its handler returned. */
  ghost predicate SlotOk(s: Sys, c: Id, slot: Slot) {
    var call := Call(c, slot.xid);
    && call in s.started
    && (slot.reply.Some? ==> call in s.results && s.results[call] == slot.reply.value)
  }

  ghost predicate Once(calls: seq<Call>) {
    forall i, j :: 0 <= i < j < |calls| ==> calls[i] != calls[j]
  }

  ghost predicate HistoryOk(s: Sys) {
    && Once(s.started)
    && (forall call :: call in s.running ==> call in s.started && call !in s.results)
    && (forall call :: call in s.results ==> call in s.started)
    && (forall r :: r in s.replies ==> r.call in s.results && s.results[r.call] == r.bytes)
  }

  ghost predicate SlotsOk(s: Sys) {
    forall c, slot :: c in s.windows && slot in s.windows[c].slots ==> SlotOk(s, c, slot)
  }

  ghost predicate Inv(s: Sys) {
    && (forall c :: c in s.clients ==> ClientOk(s.clients[c]))
    && (forall req :: req in s.requests ==> RequestOk(s, req))
    && WindowsOk(s) && HistoryOk(s) && SlotsOk(s)
    && (forall call :: call in s.started ==> StartedOk(s, call))
  }

  lemma InitInv(s: Sys)
    requires Init(s)
    ensures Inv(s)
  {
    forall c | c in s.clients ensures ClientOk(s.clients[c]) {}
  }

  lemma FrontBelowNext(cl: Client)
    requires ClientOk(cl)
    ensures Front(cl) < cl.next && forall x: nat :: x <= Front(cl) ==> x in cl.finished
  {
    assert Front(cl) in cl.finished;
  }

  lemma NewCallKeeps(s: Sys, c: Id)
    requires Inv(s) && Enabled(s, NewCall(c))
    ensures Inv(Apply(s, NewCall(c)))
  {
    hide WindowOk, Seen, Once;
    var s' := Apply(s, NewCall(c));
    FrontBelowNext(s.clients[c]);
    forall req | req in s'.requests ensures RequestOk(s', req) {
      if req in s.requests { assert RequestOk(s, req); }
    }
    forall d, slot | d in s'.windows && slot in s'.windows[d].slots
      ensures SlotOk(s', d, slot) { assert SlotOk(s, d, slot); }
    forall call | call in s'.started ensures StartedOk(s', call) { assert StartedOk(s, call); }
  }

  lemma FinishKeeps(s: Sys, c: Id, xid: nat)
    requires Inv(s) && Enabled(s, Finish(c, xid))
    ensures Inv(Apply(s, Finish(c, xid)))
  {
    hide WindowOk, Seen, Once, RpcClient.WindowOk, RpcClient.Report, RpcClient.PrefixEnd;
    var s' := Apply(s, Finish(c, xid));
    var cl := s.clients[c];
    assert ClientOk(cl);
    RpcClient.ReportKeeps(cl.window, xid, cl.finished);
    forall req | req in s'.requests ensures RequestOk(s', req) { assert RequestOk(s, req); }
    forall d, slot | d in s'.windows && slot in s'.windows[d].slots
      ensures SlotOk(s', d, slot) { assert SlotOk(s, d, slot); }
    forall call | call in s'.started ensures StartedOk(s', call) { assert StartedOk(s, call); }
  }

  /** The state after the server has looked at a request. */
  ghost predicate AfterReceive(s: Sys, s': Sys, req: Request, w: Window, st: Status) {
    && req in s.requests && (w, st) == Check(WindowFor(s, req.call.clt), req.call.xid, req.xidRep)
    && s'.windows == s.windows[req.call.clt := w] && s'.clients == s.clients && s'.requests == s.requests
    && s'.results == s.results
    && s'.running == (if st == NEW then s.running + {req.call} else s.running)
    && s'.started == (if st == NEW then s.started + [req.call] else s.started)
    && s'.replies == (if st.DONE? then s.replies + {Reply(req.call, st.reply)} else s.replies)
  }

  lemma WindowForOk(s: Sys, c: Id)
    requires WindowsOk(s) && c in s.clients
    ensures WindowOk(WindowFor(s, c)) && WindowFor(s, c).maxRep <= Front(s.clients[c])
  {}

  lemma ReceiveWindows(s: Sys, s': Sys, req: Request, w: Window, st: Status)
    requires Inv(s) && AfterReceive(s, s', req, w, st)
    ensures WindowsOk(s') && forall call :: call in s'.started ==> StartedOk(s', call)
  {
    hide Check, WindowOk, Seen, HistoryOk, SlotsOk;
    var c := req.call.clt;
    assert RequestOk(s, req);
    WindowForOk(s, c);
    CheckMeans(WindowFor(s, c), req.call.xid, req.xidRep);
    ReceiveBounds(s, req, w, st);
    forall call | call in s'.started ensures StartedOk(s', call) {
      if call in s.started {
        assert StartedOk(s, call);
        if call.clt == c && Seen(s.windows[c].slots,
          call.xid) { SeenStays(s.windows[c], req.call.xid, req.xidRep, call.xid); }
      }
    }
  }

  lemma ReceiveBounds(s: Sys, req: Request, w: Window, st: Status)
    requires Inv(s) && req in s.requests && (w, st) == Check(WindowFor(s, req.call.clt), req.call.xid, req.xidRep)
    ensures w.maxRep <= Front(s.clients[req.call.clt])
  {
    hide WindowOk, Seen, HistoryOk, SlotsOk, Prune, IndexOf;
    assert RequestOk(s, req);
    WindowForOk(s, req.call.clt);
  }

  lemma SeenStays(w: Window, xid: nat, xidRep: nat, x: nat)
    requires WindowOk(w) && xid > xidRep && Seen(w.slots, x)
    ensures var w' := Check(w, xid, xidRep).0; x <= w'.maxRep || Seen(w'.slots, x)
  {
    hide Check;
    var i :| 0 <= i < |w.slots| && w.slots[i].xid == x;
    CheckKeeps(w, xid, xidRep, w.slots[i]);
    var w' := Check(w, xid, xidRep).0;
    if w.slots[i] in w'.slots {
      var j :| 0 <= j < |w'.slots| && w'.slots[j] == w.slots[i];
    }
  }

  lemma ReceiveSlots(s: Sys, s': Sys, req: Request, w: Window, st: Status)
    requires Inv(s) && AfterReceive(s, s', req, w, st)
    ensures SlotsOk(s')
  {
    hide Check, Seen, HistoryOk;
    var c := req.call.clt;
    assert RequestOk(s, req);
    WindowForOk(s, c);
    forall d, slot | d in s'.windows && slot in s'.windows[d].slots ensures SlotOk(s', d, slot) {
      if d == c {
        CheckKeeps(WindowFor(s, c), req.call.xid, req.xidRep, slot);
        if slot in WindowFor(s, c).slots { assert SlotOk(s, c, slot); }
      } else {
        assert SlotOk(s, d, slot);
      }
    }
  }

  /** DONE carries the reply in some slot of the call. */
  lemma DoneSlot(w: Window, xid: nat, xidRep: nat)
    requires Check(w, xid, xidRep).1.DONE?
    ensures Slot(xid, Some(Check(w, xid, xidRep).1.reply)) in w.slots
  {
    hide Prune, IndexOf;
    var slots := Prune(w.slots, xidRep);
    assert slots[IndexOf(slots, xid)] in w.slots;
  }

  lemma ReceiveHistory(s: Sys, s': Sys, req: Request, w: Window, st: Status)
    requires Inv(s) && AfterReceive(s, s', req, w, st)
    ensures HistoryOk(s')
  {
    hide Check, Seen;
    var c := req.call.clt;
    assert RequestOk(s, req);
    WindowForOk(s, c);
    CheckMeans(WindowFor(s, c), req.call.xid, req.xidRep);
    if st == NEW {
      StartedLeavesTrace(s, req.call);
    } else if st.DONE? {
      DoneSlot(WindowFor(s, c), req.call.xid, req.xidRep);
      assert SlotOk(s, c, Slot(req.call.xid, Some(st.reply)));
    }
  }

  /** An id that is neither acknowledged nor in the window was never started. */
  lemma StartedLeavesTrace(s: Sys, call: Call)
    requires forall x :: x in s.started ==> StartedOk(s, x)
    ensures call in s.started ==> call.xid <= WindowFor(s, call.clt).maxRep || Seen(WindowFor(s, call.clt).slots,
      call.xid)
  {
    hide Seen;
  }

  lemma ReceiveKeeps(s: Sys, req: Request)
    requires Inv(s) && Enabled(s, Receive(req))
    ensures Inv(Apply(s, Receive(req)))
  {
    hide Check, Seen, WindowOk, HistoryOk, SlotsOk, WindowsOk, StartedOk;
    var (w, st) := Check(WindowFor(s, req.call.clt), req.call.xid, req.xidRep);
    var s' := Apply(s, Receive(req));
    assert AfterReceive(s, s', req, w, st);
    ReceiveWindows(s, s', req, w, st);
    ReceiveSlots(s, s', req, w, st);
    ReceiveHistory(s, s', req, w, st);
    forall r | r in s'.requests ensures RequestOk(s', r) { assert RequestOk(s, r); }
  }

  /** The state after a handler has ended. */
  ghost predicate AfterComplete(s: Sys, s': Sys, call: Call, bytes: string) {
    && call in s.running && s'.clients == s.clients && s'.requests == s.requests && s'.started == s.started
    && s'.running == s.running - {call} && s'.results == s.results[call := bytes]
    && s'.replies == s.replies + {Reply(call, bytes)}
    && s'.windows == match AddReply(WindowFor(s, call.clt), call.xid,
      bytes) case Some(w) => s.windows[call.clt := w] case None => s.windows
  }

  lemma CompleteWindows(s: Sys, s': Sys, call: Call, bytes: string)
    requires Inv(s) && AfterComplete(s, s', call, bytes)
    ensures WindowsOk(s') && forall x :: x in s'.started ==> StartedOk(s', x)
  {
    hide AddReply, HistoryOk, SlotsOk, Seen, WindowOk;
    RunningStarted(s, call);
    var w := s.windows[call.clt];
    AddReplyKeeps(w, call.xid, bytes);
    forall x | x in s'.started ensures StartedOk(s', x) {
      assert StartedOk(s, x);
      if x.clt == call.clt && Seen(w.slots, x.xid)
        && AddReply(w, call.xid, bytes).Some? { SeenAfterReply(w, call.xid, bytes, x.xid); }
    }
  }

  lemma RunningStarted(s: Sys, call: Call)
    requires Inv(s) && call in s.running
    ensures call in s.started && call !in s.results && StartedOk(s, call)
  {}

  lemma CompleteSlots(s: Sys, s': Sys, call: Call, bytes: string)
    requires Inv(s) && AfterComplete(s, s', call, bytes)
    ensures SlotsOk(s')
  {
    hide AddReply, Seen, Once;
    RunningStarted(s, call);
    AddReplyKeeps(s.windows[call.clt], call.xid, bytes);
    forall d, slot | d in s'.windows && slot in s'.windows[d].slots ensures SlotOk(s', d, slot) {
      if d == call.clt && slot == Slot(call.xid, Some(bytes)) {
      } else {
        assert slot in s.windows[d].slots && SlotOk(s, d, slot);
      }
    }
  }

  lemma CompleteHistory(s: Sys, s': Sys, call: Call, bytes: string)
    requires HistoryOk(s) && AfterComplete(s, s', call, bytes)
    ensures HistoryOk(s')
  {
    hide AddReply;
  }

  lemma CompleteKeeps(s: Sys, call: Call, bytes: string)
    requires Inv(s) && Enabled(s, Complete(call, bytes))
    ensures Inv(Apply(s, Complete(call, bytes)))
  {
    hide AddReply, HistoryOk, SlotsOk, WindowsOk, StartedOk;
    var s' := Apply(s, Complete(call, bytes));
    assert AfterComplete(s, s', call, bytes);
    CompleteWindows(s, s', call, bytes);
    CompleteSlots(s, s', call, bytes);
    CompleteHistory(s, s', call, bytes);
    forall r | r in s'.requests ensures RequestOk(s', r) { assert RequestOk(s, r); }
  }

  lemma SeenAfterReply(w: Window, xid: nat, b: string, x: nat)
    requires Seen(w.slots, x) && AddReply(w, xid, b).Some?
    ensures Seen(AddReply(w, xid, b).value.slots, x)
  {
    hide IndexOf;
    var i :| 0 <= i < |w.slots| && w.slots[i].xid == x;
    assert AddReply(w, xid, b).value.slots[i].xid == x;
  }

  lemma StepKeeps(s: Sys, step: Step)
    requires Inv(s) && Enabled(s, step)
    ensures Inv(Apply(s, step))
  {
    hide Inv, Check, AddReply;
    match step {
      case NewCall(c) => NewCallKeeps(s, c);
      case Finish(c, xid) => FinishKeeps(s, c, xid);
      case Receive(req) => ReceiveKeeps(s, req);
      case Complete(call, bytes) => CompleteKeeps(s, call, bytes);
    }
  }

  // ----- every run

  ghost predicate Next(s: Sys, s': Sys) {
    exists step :: Enabled(s, step) && s' == Apply(s, step)
  }

  ghost predicate IsRun(states: seq<Sys>) {
    |states| > 0 && Init(states[0]) && forall i :: 0 < i < |states| ==> Next(states[i - 1], states[i])
  }

  lemma {:induction false} RunKeepsInv(states: seq<Sys>)
    requires IsRun(states)
    ensures Inv(states[|states| - 1])
  {
    hide Inv, Init, Enabled, Apply;
    var last := |states| - 1;
    if last == 0 {
      InitInv(states[0]);
    } else {
      RunKeepsInv(states[..last]);
      assert Next(states[last - 1], states[last]);
      var step :| Enabled(states[last - 1], step) && states[last] == Apply(states[last - 1], step);
      StepKeeps(states[last - 1], step);
    }
  }

  /** At most once: in every run, however requests are lost, repeated and reordered, no call is
      started twice, no window holds an id twice, and every reply to a call, first or repeated,
      carries what its one execution returned. */
  lemma AtMostOnce(states: seq<Sys>)
    requires IsRun(states)
    ensures var s := states[|states| - 1];
            && Once(s.started)
            && (forall c :: c in s.windows ==> NoDuplicates(s.windows[c].slots))
            && (forall r, r' :: r in s.replies && r' in s.replies && r.call == r'.call ==> r.bytes == r'.bytes)
            && (forall r :: r in s.replies ==> r.call in s.results && s.results[r.call] == r.bytes)
  {
    hide Init, Next, Seen, Once, NoDuplicates;
    RunKeepsInv(states);
  }

  /** DONE repeats exactly the bytes stored for the call. */
  lemma DoneRepeatsReply(states: seq<Sys>, req: Request)
    requires IsRun(states) && req in states[|states| - 1].requests
    ensures var s := states[|states| - 1];
            var st := Check(WindowFor(s, req.call.clt), req.call.xid, req.xidRep).1;
            st.DONE? ==> req.call in s.results && st.reply == s.results[req.call]
  {
    hide Init, Next, Seen, Check, WindowOk, Once;
    RunKeepsInv(states);
    var s := states[|states| - 1];
    var w := WindowFor(s, req.call.clt);
    if Check(w, req.call.xid, req.xidRep).1.DONE? {
      DoneSlot(w, req.call.xid, req.xidRep);
      assert SlotOk(s, req.call.clt, Slot(req.call.xid, Some(Check(w, req.call.xid, req.xidRep).1.reply)));
    }
  }

  /** End to end: every request has xid > xid_rep, and a call that is not finished at its
      client is never answered FORGOTTEN. */
  lemma OutstandingNotForgotten(states: seq<Sys>, req: Request)
    requires IsRun(states) && req in states[|states| - 1].requests
    ensures req.call.xid > req.xidRep
    ensures var s := states[|states| - 1];
            && req.call.clt in s.clients
            && (req.call.xid !in s.clients[req.call.clt].finished ==>
              Check(WindowFor(s, req.call.clt), req.call.xid, req.xidRep).1 != FORGOTTEN)
  {
    hide Init, Next, Seen, Check, HistoryOk, SlotsOk;
    RunKeepsInv(states);
    var s := states[|states| - 1];
    var c := req.call.clt;
    assert RequestOk(s, req) && ClientOk(s.clients[c]);
    WindowForOk(s, c);
    CheckMeans(WindowFor(s, c), req.call.xid, req.xidRep);
  }

  /** In every run, what a client acknowledges is the largest prefix of finished ids. */
  lemma AcknowledgesFinishedPrefix(states: seq<Sys>, c: Id)
    requires IsRun(states) && c in states[|states| - 1].clients
    ensures var cl := states[|states| - 1].clients[c]; RpcClient.PrefixEnd(cl.finished, Front(cl))
  {
    hide Init, Next, WindowsOk, HistoryOk, SlotsOk, RequestOk, StartedOk, RpcClient.PrefixEnd;
    RunKeepsInv(states);
    var cl := states[|states| - 1].clients[c];
    assert ClientOk(cl);
    RpcClient.FrontIsPrefixEnd(cl.window, cl.finished);
  }

  /** add_reply finds the entry of a handler that ends exactly if the call's id has not been
      acknowledged meanwhile; in particular if the call is not finished at its client. */
  lemma AddReplyFindsEntry(states: seq<Sys>, call: Call, bytes: string)
    requires IsRun(states) && call in states[|states| - 1].running
    ensures var s := states[|states| - 1];
            && (AddReply(WindowFor(s, call.clt), call.xid, bytes).Some? <==> call.xid > WindowFor(s, call.clt).maxRep)
            && call.clt in s.clients
            && (call.xid !in s.clients[call.clt].finished ==> AddReply(WindowFor(s, call.clt), call.xid, bytes).Some?)
  {
    hide Init, Next, AddReply, SlotsOk;
    RunKeepsInv(states);
    var s := states[|states| - 1];
    assert StartedOk(s, call) && ClientOk(s.clients[call.clt]);
    AddReplyKeeps(s.windows[call.clt], call.xid, bytes);
  }

  // ----- a reply that comes after the client gave up

  const C := Id(1)
  const FIRST := Request(Call(C, 1), 0)
  const SECOND := Request(Call(C, 2), 1)

  lemma StepTo(s: Sys, step: Step, s': Sys)
    requires Enabled(s, step) && s' == Apply(s, step)
    ensures Next(s, s')
  {}

  lemma FirstReceived()
    ensures Check(Window([], 0), 1, 0) == (Window([Slot(1, None)], 0), NEW)
  {
    var none: seq<Slot> := [];
    assert none + [Slot(1, None)] == [Slot(1, None)];
  }

  lemma SecondReceived()
    ensures Check(Window([Slot(1, None)], 0), 2, 1) == (Window([Slot(2, None)], 1), NEW)
  {
    var slots := [Slot(1, None)];
    assert slots[..0] == [];
    var left := Prune(slots, 1);
    assert left == Prune(slots[..0], 1) == [];
    assert IndexOf(left, 2) == 0 && left + [Slot(2, None)] == [Slot(2, None)];
  }

  lemma FirstReported()
    ensures RpcClient.Report([0], 1) == [1]
  {
    var w := [0, 1];
    assert [0][..1] + [1] + [0][1..] == w && w[1..] == [1];
    assert RpcClient.PlaceFor([0], 1) == 1 + RpcClient.PlaceFor([], 1);
    assert RpcClient.Compressed(w, 1) == RpcClient.Compressed([1], 0) == RpcClient.Compressed([1], 1) == [1];
  }

  const S0 := Sys(map[C := Client(1, {0}, [0])], {}, {}, map[], {}, [], map[])
  const S1 := S0.(clients := map[C := Client(2, {0}, [0])], requests := {FIRST})
  const S2 := S1.(windows := map[C := Window([Slot(1, None)], 0)], running := {FIRST.call}, started := [FIRST.call])
  const S3 := S2.(clients := map[C := Client(2, {0, 1}, [1])])
  const S4 := S3.(clients := map[C := Client(3, {0, 1}, [1])], requests := {FIRST, SECOND})
  const S5 := S4.(windows := map[C := Window([Slot(2, None)], 1)], running := {FIRST.call, SECOND.call},
    started := [FIRST.call, SECOND.call])

  lemma GoesOn()
    ensures Next(S0, S1) && Next(S1, S2)
  {
    hide Check;
    StepTo(S0, NewCall(C), S1);
    FirstReceived();
    StepTo(S1, Receive(FIRST), S2);
  }

  lemma GivesUp()
    ensures Next(S2, S3) && Next(S3, S4)
  {
    hide Check;
    FirstReported();
    assert {0} + {1} == {0, 1};
    StepTo(S2, Finish(C, 1), S3);
    assert {FIRST} + {SECOND} == {FIRST, SECOND};
    StepTo(S3, NewCall(C), S4);
  }

  lemma Acknowledges()
    ensures Next(S4, S5)
  {
    hide Check;
    SecondReceived();
    assert {FIRST.call} + {SECOND.call} == {FIRST.call, SECOND.call};
    assert S4.started + [SECOND.call] == S5.started && S4.windows[C := Window([Slot(2, None)], 1)] == S5.windows;
    StepTo(S4, Receive(SECOND), S5);
  }

  /** The client gives up its first call while the handler is at work. Its second call then
      acknowledges the first, the entry is erased, and add_reply does not find it. */
  lemma LateReplyHasNoEntry() returns (states: seq<Sys>)
    ensures IsRun(states) && FIRST.call in states[|states| - 1].running
    ensures AddReply(WindowFor(states[|states| - 1], C), 1, "").None?
  {
    hide Next;
    GoesOn();
    GivesUp();
    Acknowledges();
    states := [S0, S1, S2, S3, S4, S5];
  }
}
