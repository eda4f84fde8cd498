// Transaction identifiers over whole runs: a TCP master and slave joined by a channel that may lose,
// delay and repeat whole frames, in both directions.

module Transactions {
  import opened Bytes
  import opened Cores
  import opened Framing
  import opened Protocol
  import opened Remote
  import opened Tables

  /** A request under way; `origin` numbers the requests from 1. */
  datatype Asking = Asking(origin: nat, frame: seq<byte>)

  /** A reply under way, with what the slave had when it was made: table, buffers, remembered identifier. */
  datatype Reply = Reply(origin: nat, frame: seq<byte>, table: Table, leftovers: Leftovers, slaveTid: word)

  datatype State = State(
    unit: byte,
    firstId: word,            // the master's identifier before the run
    tid: word,                // the master's identifier now
    requests: seq<Request>,   // everything issued so far; the last one is outstanding
    queries: set<Asking>,
    replies: set<Reply>,
    slaveTid: word,
    table: Table)

  datatype Action =
    | Issue(request: Request)                       // modbus_start_request
    | Handle(query: Asking, leftovers: Leftovers)    // modbus_slave_wait_handle on a frame that stays in the channel
    | LoseQuery(query: Asking)
    | LoseReply(reply: Reply)

  /** The identifier of the j-th request: a 16-bit counter. */
  function IdOf(firstId: word, j: nat): word { (firstId + j) % 0x1_0000 }

  function RequestFrame(s: State, j: nat): seq<byte>
    requires 1 <= j <= |s.requests| && s.requests[j - 1].Legal()
  {
    Adu(TCP, IdOf(s.firstId, j), s.unit, RequestPdu(s.requests[j - 1]))
  }

  function SlaveTidAfter(unit: byte, slaveTid: word, frame: seq<byte>): word {
    match ScanRequest(TCP, frame)
    case Whole(n) => RememberedId(TCP, unit, slaveTid, frame[..n])
    case _ => slaveTid
  }

  function Do(s: State, a: Action): State {
    match a
    case Issue(r) =>
      if !r.Legal() then s
      else
        var tid := NextId(TCP, s.tid);
        s.(tid := tid, requests := s.requests + [r],
           queries := s.queries + {Asking(|s.requests| + 1, Adu(TCP, tid, s.unit, RequestPdu(r)))})
    case Handle(q, old_) =>
      if q !in s.queries || !old_.Valid() then s
      else
        var (table, frame) := TableSide(TCP, s.unit, s.slaveTid, q.frame, old_, s.table);
        s.(table := table, slaveTid := SlaveTidAfter(s.unit, s.slaveTid, q.frame),
           replies := s.replies + {Reply(q.origin, frame, s.table, old_, s.slaveTid)})
    case LoseQuery(q) => s.(queries := s.queries - {q})
    case LoseReply(p) => s.(replies := s.replies - {p})
  }

  function Perform(s: State, actions: seq<Action>): State
    decreases |actions|
  {
    if actions == [] then s else Perform(Do(s, actions[0]), actions[1..])
  }

  predicate Initial(s: State) {
    s.tid == s.firstId && s.requests == [] && s.queries == {} && s.replies == {}
  }

  /** A frame under way belongs to a request that was issued, and carries that request's identifier. */
  ghost predicate GenuineQuery(s: State, q: Asking) {
    && 1 <= q.origin <= |s.requests| && s.requests[q.origin - 1].Legal()
    && q.frame == RequestFrame(s, q.origin)
  }

  /** A reply under way is what the slave sent for an issued request. */
  ghost predicate GenuineReply(s: State, p: Reply) {
    && 1 <= p.origin <= |s.requests|
    && IsReplyTo(TCP, IdOf(s.firstId, p.origin), p.slaveTid, s.unit, s.requests[p.origin - 1],
                 p.leftovers, p.table, p.frame)
  }

  ghost predicate Inv(s: State) {
    && s.tid == IdOf(s.firstId, |s.requests|)
    && (forall i :: 0 <= i < |s.requests| ==> s.requests[i].Legal())
    && (forall q :: q in s.queries ==> GenuineQuery(s, q))
    && (forall p :: p in s.replies ==> GenuineReply(s, p))
  }

  lemma NextIdOf(firstId: word, j: nat)
    ensures NextId(TCP, IdOf(firstId, j)) == IdOf(firstId, j + 1)
  {
    var n := firstId + j;
    assert n == 0x1_0000 * (n / 0x1_0000) + n % 0x1_0000;
  }

  /** Later requests do not change what earlier frames look like. */
  lemma IssueKeepsFrames(s: State, s': State, r: Request, j: nat)
    requires s'.requests == s.requests + [r] && s'.unit == s.unit && s'.firstId == s.firstId
    requires 1 <= j <= |s.requests| && s.requests[j - 1].Legal()
    ensures s'.requests[j - 1] == s.requests[j - 1] && RequestFrame(s', j) == RequestFrame(s, j)
  {
  }

  lemma IssueKeeps(s: State, r: Request)
    requires Inv(s) && r.Legal()
    ensures Inv(Do(s, Issue(r)))
  {
    var s' := Do(s, Issue(r));
    var k := |s.requests| + 1;
    NextIdOf(s.firstId, |s.requests|);
    var new_ := Asking(k, Adu(TCP, s'.tid, s.unit, RequestPdu(r)));
    assert s'.requests[k - 1] == r && new_.frame == RequestFrame(s', k);
    forall q | q in s'.queries ensures GenuineQuery(s', q) {
      if q in s.queries {
        assert GenuineQuery(s, q);
        IssueKeepsFrames(s, s', r, q.origin);
      }
    }
    forall p | p in s'.replies ensures GenuineReply(s', p) {
      assert GenuineReply(s, p);
      IssueKeepsFrames(s, s', r, p.origin);
    }
  }

  lemma HandleKeeps(s: State, q: Asking, old_: Leftovers)
    requires Inv(s) && q in s.queries && old_.Valid()
    ensures Inv(Do(s, Handle(q, old_)))
  {
    hide TableSide, SlaveTidAfter, Adu, RequestPdu;
    var s' := Do(s, Handle(q, old_));
    assert GenuineQuery(s, q);
    forall q' | q' in s'.queries ensures GenuineQuery(s', q') {
      assert GenuineQuery(s, q');
    }
    forall p | p in s'.replies ensures GenuineReply(s', p) {
      if p in s.replies {
        assert GenuineReply(s, p);
      }
    }
  }

  lemma LossKeeps(s: State, a: Action)
    requires Inv(s) && (a.LoseQuery? || a.LoseReply?)
    ensures Inv(Do(s, a))
  {
    var s' := Do(s, a);
    forall q | q in s'.queries ensures GenuineQuery(s', q) {
      assert GenuineQuery(s, q);
    }
    forall p | p in s'.replies ensures GenuineReply(s', p) {
      assert GenuineReply(s, p);
    }
  }

  /** Every step keeps the invariant. */
  lemma StepKeeps(s: State, a: Action)
    requires Inv(s)
    ensures Inv(Do(s, a))
  {
    match a
    case Issue(r) => if r.Legal() { IssueKeeps(s, r); }
    case Handle(q, old_) => if q in s.queries && old_.Valid() { HandleKeeps(s, q, old_); }
    case LoseQuery(_) => LossKeeps(s, a);
    case LoseReply(_) => LossKeeps(s, a);
  }

  lemma {:induction false} RunKeeps(s: State, actions: seq<Action>)
    requires Inv(s)
    ensures Inv(Perform(s, actions))
    decreases |actions|
  {
    if actions != [] {
      StepKeeps(s, actions[0]);
      RunKeeps(Do(s, actions[0]), actions[1..]);
    }
  }

  /** modbus_wait_confirm takes exactly these octets and lets them through. */
  predicate Passes(unit: byte, tid: word, frame: seq<byte>) {
    ScanReply(TCP, frame) == Whole(|frame|) && ResponseVerdict(TCP, unit, tid, frame) > 0
  }

  /** The reply passes while the last request is outstanding. */
  predicate Accepted(s: State, p: Reply) {
    p in s.replies && Passes(s.unit, s.tid, p.frame)
  }

  /** What the slave sent for a request starts with that request's identifier. */
  lemma ReplyEchoesId(s: State, p: Reply)
    requires GenuineReply(s, p)
    ensures |p.frame| >= 2 && Word(p.frame[0], p.frame[1]) == IdOf(s.firstId, p.origin)
  {
    hide TableSide, ResponseVerdict, RequestPdu;
    TableReplyFramed(TCP, IdOf(s.firstId, p.origin), p.slaveTid, s.unit, s.requests[p.origin - 1],
                     p.leftovers, p.table, p.frame);
  }

  lemma SameId(firstId: word, j: nat, k: nat)
    requires IdOf(firstId, j) == IdOf(firstId, k)
    ensures j % 0x1_0000 == k % 0x1_0000
  {
  }

  lemma CloseAndCongruent(j: nat, k: nat)
    requires j % 0x1_0000 == k % 0x1_0000 && j <= k < j + 0x1_0000
    ensures j == k
  {
  }

  lemma AcceptedIn(s: State, p: Reply)
    requires Inv(s) && Accepted(s, p)
    ensures GenuineReply(s, p) && p.origin % 0x1_0000 == |s.requests| % 0x1_0000
    ensures |s.requests| - p.origin <= 0xFFFF ==> p.origin == |s.requests|
  {
    assert GenuineReply(s, p);
    ReplyEchoesId(s, p);
    SameId(s.firstId, p.origin, |s.requests|);
    if |s.requests| - p.origin <= 0xFFFF {
      CloseAndCongruent(p.origin, |s.requests|);
    }
  }

  /** The outcome of request k, which is outstanding, on the table the slave had when it served it. */
  predicate AnswersOutstanding(s: State, p: Reply) {
    var k := |s.requests|;
    && p.origin == k >= 1 && s.requests[k - 1].Legal()
    && Delivers(TCP, s.tid, s.unit, s.requests[k - 1], RequestFrame(s, k), p.frame,
                Local(p.table, s.requests[k - 1]).result)
  }

  lemma AcceptedIffCongruent(s: State, p: Reply)
    requires Inv(s) && p in s.replies
    ensures Accepted(s, p) <==> p.origin % 0x1_0000 == |s.requests| % 0x1_0000
  {
    hide TableSide;
    if Accepted(s, p) {
      AcceptedIn(s, p);
    }
    if p.origin % 0x1_0000 == |s.requests| % 0x1_0000 {
      assert GenuineReply(s, p);
      CongruentId(s.firstId, p.origin, |s.requests|);
      TableReplyFramed(TCP, s.tid, p.slaveTid, s.unit, s.requests[p.origin - 1], p.leftovers, p.table, p.frame);
    }
  }

  lemma CongruentId(firstId: word, j: nat, k: nat)
    requires j % 0x1_0000 == k % 0x1_0000
    ensures IdOf(firstId, j) == IdOf(firstId, k)
  {
  }

  lemma AcceptedAnswers(s: State, p: Reply)
    requires Inv(s) && Accepted(s, p)
    ensures 1 <= p.origin <= |s.requests| && p.origin % 0x1_0000 == |s.requests| % 0x1_0000
    ensures |s.requests| - p.origin <= 0xFFFF ==> AnswersOutstanding(s, p)
  {
    hide TableSide, Local, Passes, Delivers;
    AcceptedIn(s, p);
    if |s.requests| - p.origin <= 0xFFFF {
      ResultIsLocal(TCP, s.tid, p.slaveTid, s.unit, s.requests[p.origin - 1], p.leftovers, p.table, p.frame);
    }
  }

  /**
   * The identifier alone decides: in every run a reply in the channel is accepted exactly when it belongs
   * to a request congruent to the outstanding one modulo 65536. So the limit on a frame's age is needed.
   */
  lemma AcceptedExactlyWhenCongruent(start: State, actions: seq<Action>, s: State, p: Reply)
    requires Initial(start) && s == Perform(start, actions) && p in s.replies
    ensures Accepted(s, p) <==> p.origin % 0x1_0000 == |s.requests| % 0x1_0000
  {
    hide Perform, Accepted;
    RunKeeps(start, actions);
    AcceptedIffCongruent(s, p);
  }

  /**
   * Transaction safety. In every run, a reply accepted while request k is outstanding answers a request
   * congruent to k modulo 65536. If it has not outlived 65535 later requests it answers request k itself,
   * and the master's result is that of request k on the table as it was when the slave served it.
   */
  lemma AcceptedReplyIsOurs(start: State, actions: seq<Action>, s: State, p: Reply)
    requires Initial(start) && s == Perform(start, actions) && Accepted(s, p)
    ensures 1 <= p.origin <= |s.requests| && p.origin % 0x1_0000 == |s.requests| % 0x1_0000
    ensures |s.requests| - p.origin <= 0xFFFF ==> AnswersOutstanding(s, p)
  {
    hide Perform, Accepted, AnswersOutstanding;
    RunKeeps(start, actions);
    AcceptedAnswers(s, p);
  }
}
