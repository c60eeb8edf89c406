/** The client's live requests as a linked list, and the handlers that change them. */
module Requests {
  import P = Protocol

  class Request {
    const number: nat
    var next: Request?
    const parent: Request?
    const kind: P.Kind
    const keepActive: bool
    var sent: bool
    var processed: bool
    var success: bool
    var needReceipt: bool
    var processingReceipt: bool
    var receiptAttempts: nat
    ghost var fetches: nat
    ghost var child: int
    ghost var calls: nat
    ghost var silent: bool

    /** The request's record in the protocol. */
    ghost function Info(): P.Info
      reads this`sent, this`processed, this`success, this`needReceipt, this`processingReceipt,
            this`receiptAttempts, this`fetches, this`child, this`calls, this`silent
    {
      P.Info(kind, if parent == null then -1 else parent.number, keepActive, sent, processed, success,
             needReceipt, processingReceipt, receiptAttempts, fetches, child, calls, silent)
    }

    constructor (number: nat, parent: Request?, kind: P.Kind, keepActive: bool)
      ensures this.number == number && this.parent == parent && this.kind == kind && this.keepActive == keepActive
      ensures next == null && !sent
      ensures Info() == P.Fresh(kind, if parent == null then -1 else parent.number, keepActive, false)
    {
      this.number, this.parent, this.kind, this.keepActive := number, parent, kind, keepActive;
      next, sent, processed, success, needReceipt, processingReceipt, receiptAttempts :=
        null, false, false, false, false, false, 0;
      fetches, child, calls, silent := 0, -1, 0, false;
    }
  }

  ghost function Nth(s: seq<Request>, k: nat): Request? {
    if k < |s| then s[k] else null
  }

  predicate Distinct(s: seq<Request>) {
    forall j, k :: 0 <= j < k < |s| ==> s[j] != s[k]
  }

  lemma Apart(s: seq<Request>, j: nat, k: nat)
    requires Distinct(s) && j < |s| && k < |s|
    ensures s[j] == s[k] <==> j == k
  {}

  /** t is s without its element k. */
  ghost predicate Without(s: seq<Request>, k: nat, t: seq<Request>)
    requires k < |s|
  {
    |t| == |s| - 1 && forall j :: 0 <= j < |t| ==> t[j] == s[if j < k then j else j + 1]
  }

  lemma Remove(s: seq<Request>, k: nat) returns (t: seq<Request>)
    requires k < |s| && Distinct(s)
    ensures Without(s, k, t) && Distinct(t)
  {
    t := s[..k] + s[k + 1..];
  }

  /** Requests are told apart by number here, by address in memory. */
  class Client {
    var requests: Request?
    var made: nat
    ghost var all: seq<Request>
    ghost var mine: set<Request>
    ghost var list: seq<Request>
    ghost var state: P.State

    /** A request that was made here. */
    ghost predicate Known(r: Request)
      reads this`all
    {
      r.number < |all| && all[r.number] == r
    }

    /** Requests are numbered in the order of their creation, and parents come before children. */
    ghost predicate Numbered()
      reads this`all, this`made, this`mine
    {
      && made == |all| && (forall i :: 0 <= i < |all| ==> all[i] in mine)
      && (forall i :: 0 <= i < |all| ==> all[i].number == i)
      && (forall i, p: Request :: 0 <= i < |all| && all[i].parent == p ==> Known(p) && p.number < i)
    }

    /** The listed requests are different ones of those ever made. */
    ghost predicate Listed()
      reads this`all, this`list
    {
      Distinct(list) && forall k :: 0 <= k < |list| ==> Known(list[k])
    }

    /** The list is linked from its first to its last request. */
    ghost predicate Linked()
      reads this`requests, this`list, list`next
    {
      && requests == Nth(list, 0)
      && (forall j, k :: 0 <= j < |list| && k == j + 1 ==> list[j].next == Nth(list, k))
    }

    ghost predicate Structured()
      reads this`requests, this`made, this`all, this`mine, this`list, list`next
    {
      Numbered() && Listed() && Linked()
    }

    /** The protocol's state is the records of the requests and the numbers on the list. */
    ghost predicate Tied()
      reads this`all, this`list, this`state, all`sent, all`processed, all`success, all`needReceipt,
            all`processingReceipt, all`receiptAttempts, all`fetches, all`child, all`calls, all`silent
    {
      && |state.info| == |all| && (forall i :: 0 <= i < |all| ==> state.info[i] == all[i].Info())
      && |state.live| == |list| && (forall k :: 0 <= k < |list| ==> state.live[k] == list[k].number)
    }

    ghost predicate Valid()
      reads this, list`next, all
    {
      Structured() && Tied() && P.Sound(state)
    }

    constructor ()
      ensures Valid() && state == P.State([], [])
    {
      requests, made, all, mine, list, state := null, 0, [], {}, [], P.State([], []);
    }

    /** Walks to the end of the list and links the request there. */
    method ListAdd(r: Request)
      requires Structured() && Known(r) && r !in list && r.next == null
      modifies this`requests, this`list, mine`next
      ensures Structured() && list == old(list) + [r]
    {
      var item := requests;
      if item == null {
        requests := r;
      } else {
        ghost var k := 0;
        while item.next != null
          invariant k < |list| && item == list[k]
          decreases |list| - k
        {
          assert item.next == Nth(list, k + 1);
          item := item.next;
          k := k + 1;
        }
        assert item.next == Nth(list, k + 1);
        item.next := r;
      }
      list := list + [r];
      forall j, k | 0 <= j < |list| && k == j + 1 ensures list[j].next == Nth(list, k) {
        assert Nth(list, k) == if k < |list| then list[k] else null;
        if k + 1 < |list| {
          Apart(list, j, |list| - 2);
          assert Nth(old(list), k) == list[k];
        }
      }
    }

    /** Walks to the request whose successor is r. */
    method Before(r: Request, ghost k: nat) returns (item: Request)
      requires Structured() && 0 < k < |list| && list[k] == r
      ensures item == list[k - 1]
    {
      item := requests;
      ghost var j := 0;
      while item.next != r
        invariant j < k && item == list[j]
        decreases k - j
      {
        assert item.next == Nth(list, j + 1);
        item := item.next;
        j := j + 1;
      }
      assert item.next == Nth(list, j + 1);
      Apart(list, j + 1, k);
    }

    /** The position that follows m once position k is left out. */
    ghost function Past(m: nat, k: nat): nat {
      if m + 1 == k then k + 1 else m + 1
    }

    /** Makes the list go past the request at position k. */
    method Unlink(r: Request, ghost k: nat)
      requires Structured() && k < |list| && list[k] == r
      modifies this`requests, mine`next
      ensures requests == if k == 0 then Nth(list, 1) else Nth(list, 0)
      ensures forall m, n :: 0 <= m < |list| && m != k && n == Past(m, k) ==> list[m].next == Nth(list, n)
    {
      assert r.next == Nth(list, k + 1);
      if r == requests {
        Apart(list, 0, k);
        requests := r.next;
      } else {
        var item := Before(r, k);
        item.next := r.next;
      }
      r.next := null;
      forall m, n | 0 <= m < |list| && m != k && n == Past(m, k) ensures list[m].next == Nth(list, n) {
        Apart(list, m, k);
        if k > 0 { Apart(list, m, k - 1); }
        assert m + 1 != k ==> old(list[m].next) == Nth(list, m + 1);
      }
    }

    /** Removes the request at position k from the list. */
    method ListRemove(r: Request, ghost k: nat)
      requires Structured() && k < |list| && list[k] == r
      modifies this`requests, this`list, mine`next
      ensures Structured() && Without(old(list), k, list)
    {
      Unlink(r, k);
      ghost var was := list;
      ghost var t := Remove(was, k);
      assert forall m, n :: 0 <= m < |was| && m != k && n == Past(m, k) ==> was[m].next == Nth(was, n);
      list := t;
      forall i, j | 0 <= i < |t| && j == i + 1 ensures t[i].next == Nth(list, j) {
        ghost var m := if i < k then i else i + 1;
        assert t[i] == was[m];
        assert was[m].next == Nth(was, Past(m, k));
      }
    }

    /** A request has been made, but is neither listed nor recorded yet. */
    ghost predicate Pending(r: Request, kind: P.Kind, parent: int, keepActive: bool)
      reads this, list`next, all, r
    {
      && Structured() && P.Sound(state) && Known(r) && r.number == |state.info| == |all| - 1
      && (forall i :: 0 <= i < |state.info| ==> state.info[i] == all[i].Info())
      && |state.live| == |list| && (forall k :: 0 <= k < |list| ==> state.live[k] == list[k].number)
      && r !in list && r.next == null
      && -1 <= parent < |state.info| && r.Info() == P.Fresh(kind, parent, keepActive, false)
    }

    /** Allocates a request. */
    method Allocate(kind: P.Kind, parent: Request?, keepActive: bool) returns (r: Request)
      requires Valid() && (parent != null ==> Known(parent))
      modifies this`made, this`all, this`mine
      ensures fresh(r) && mine == old(mine) + {r} && (parent != null ==> Known(parent))
      ensures Pending(r, kind, if parent == null then -1 else parent.number, keepActive)
    {
      hide Linked;
      r := new Request(made, parent, kind, keepActive);
      made := made + 1;
      all := all + [r];
      mine := mine + {r};
    }

    /** Puts a new request at the end of the list. */
    method Append(r: Request, ghost kind: P.Kind, ghost parent: int, ghost keepActive: bool)
      requires Pending(r, kind, parent, keepActive)
      modifies this`state, this`requests, this`list, mine`next
      ensures Valid() && state == P.Made(old(state), kind, parent, keepActive, false)
    {
      ghost var n, m, t := |state.info|, |state.live|, P.Made(state, kind, parent, keepActive, false);
      ListAdd(r);
      forall i | 0 <= i < |all| ensures t.info[i] == all[i].Info() {
        if i == n { assert all[i] == r; } else { assert t.info[i] == state.info[i]; }
      }
      forall k | 0 <= k < |list| ensures t.live[k] == list[k].number {
        if k == m { assert list[k] == r; } else { assert t.live[k] == state.live[k]; }
      }
      state := t;
    }

    /** Makes a request and puts it at the end of the list. */
    method NewRequest(kind: P.Kind, parent: Request?, keepActive: bool) returns (r: Request)
      requires Valid() && (parent != null ==> Known(parent))
      modifies this, mine
      ensures Valid() && Known(r) && (parent != null ==> Known(parent)) && r.number == old(|state.info|)
      ensures fresh(r) && mine == old(mine) + {r}
      ensures state == P.Made(old(state), kind, if parent == null then -1 else parent.number, keepActive, false)
    {
      r := Allocate(kind, parent, keepActive);
      Append(r, kind, if parent == null then -1 else parent.number, keepActive);
    }

    /** Records a change to one request. */
    ghost method Record(r: Request)
      requires Structured() && Known(r) && |state.info| == |all| && P.Sound(state)
      requires state.info[r.number].parent == r.Info().parent
      requires forall i :: 0 <= i < |all| && i != r.number ==> state.info[i] == all[i].Info()
      requires |state.live| == |list| && forall k :: 0 <= k < |list| ==> state.live[k] == list[k].number
      modifies this`state
      ensures Valid() && state == old(state).(info := old(state).info[r.number := r.Info()])
    {
      state := state.(info := state.info[r.number := r.Info()]);
    }

    ghost method CountCall(o: Request)
      requires Valid() && Known(o)
      modifies this`state, o`calls
      ensures Valid()
      ensures var r := old(state).info[o.number]; state == P.With(old(state), o.number, r.(calls := r.calls + 1))
    {
      o.calls := o.calls + 1;
      Record(o);
    }

    /** The user's callback is called: it belongs to the commit, or to a receipt request without one. */
    method CallBack(r: Request)
      requires Valid() && Known(r)
      modifies this`state, mine`calls
      ensures Valid() && state == P.Called(old(state), r.number)
    {
      if r.parent != null {
        assert Known(r.parent);
        CountCall(r.parent);
      } else {
        CountCall(r);
      }
    }

    /** The transport takes a request, or does not. */
    method HandOver(r: Request, sent: bool)
      requires Valid() && Known(r)
      modifies this`state, r`sent
      ensures Valid()
      ensures var info := old(state).info; state == old(state).(info := info[r.number := info[r.number].(sent := sent)])
    {
      r.sent := sent;
      Record(r);
    }

    /** A user's call: makes a request and hands it to the transport, or fails to. */
    method Start(kind: P.Kind, keepActive: bool, sent: bool)
      requires Valid()
      modifies this, mine
      ensures Valid() && state == P.Open(old(state), kind, keepActive, sent)
    {
      var r := NewRequest(kind, null, keepActive);
      HandOver(r, sent);
      P.MadeSent(old(state), kind, -1, keepActive, sent);
    }

    method GiveUp(r: Request)
      requires Valid() && Known(r) && r.parent != null
      modifies this`state, mine`needReceipt
      ensures Valid() && state == P.GivenUp(old(state), r.number)
    {
      assert Known(r.parent);
      r.parent.needReceipt := false;
      Record(r.parent);
    }

    ghost method Note(r: Request, lost: bool)
      requires Valid() && Known(r) && r.parent != null
      modifies this`state, mine`silent
      ensures Valid() && state == P.Noted(old(state), r.number, lost)
    {
      assert Known(r.parent);
      r.parent.silent := r.parent.silent || lost;
      Record(r.parent);
    }

    /** Counts a failed attempt. */
    method CountAttempt(r: Request)
      requires Valid() && Known(r) && r.parent != null
      modifies this`state, mine`receiptAttempts
      ensures Valid() && r.parent.receiptAttempts == old(r.parent.receiptAttempts) + 1
      ensures state == P.Counted(old(state), r.number)
    {
      assert Known(r.parent);
      r.parent.receiptAttempts := r.parent.receiptAttempts + 1;
      Record(r.parent);
    }

    method TryAgain(r: Request)
      requires Valid() && Known(r) && r.parent != null
      modifies this`state, mine`processingReceipt
      ensures Valid() && state == P.Later(old(state), r.number)
    {
      assert Known(r.parent);
      r.parent.processingReceipt := false;
      Record(r.parent);
    }

    /** The receipt is in hand, or its answer cannot be decoded. */
    method HandleReceipt(r: Request, decoded: bool) returns (ret: bool)
      requires Valid() && Known(r)
      modifies this`state, mine`calls, mine`needReceipt, mine`processingReceipt, mine`silent
      ensures Valid() && ret == decoded
      ensures state == P.Settled(if decoded then P.Called(old(state), r.number) else old(state), r.number, !decoded)
    {
      if decoded { CallBack(r); }
      if r.parent != null {
        GiveUp(r);
        TryAgain(r);
        Note(r, !decoded);
      }
      ret := decoded;
    }

    /** The error handler of receipt requests. */
    method OnFailedReceipt(r: Request, notFound: bool) returns (ret: bool)
      requires Valid() && Known(r)
      modifies this`state, mine`calls, mine`needReceipt, mine`processingReceipt, mine`receiptAttempts
      ensures Valid() && !ret
      ensures state == P.FailedReceipt(old(state), r.number, notFound)
    {
      if r.parent != null {
        assert Known(r.parent);
        if notFound {
          CountAttempt(r);
          if r.parent.receiptAttempts >= P.MAX_ATTEMPTS {
            GiveUp(r);
          } else {
            TryAgain(r);
            return false;
          }
        } else {
          GiveUp(r);
        }
      }
      CallBack(r);
      return false;
    }

    method MarkProcessed(r: Request)
      requires Valid() && Known(r)
      modifies this`state, r`processed
      ensures Valid() && state == P.Processed(old(state), r.number)
    {
      r.processed := true;
      Record(r);
    }

    method SetSuccess(r: Request, success: bool)
      requires Valid() && Known(r)
      modifies this`state, r`success
      ensures Valid() && state == P.With(old(state), r.number, old(state).info[r.number].(success := success))
    {
      r.success := success;
      Record(r);
    }

    /** An accepted commit is marked to fetch its receipt. */
    method HandleCommit(r: Request, accepted: bool) returns (ret: bool)
      requires Valid() && Known(r) && r.kind == P.Commit
      modifies this`state, r`needReceipt
      ensures Valid() && ret == accepted && state == P.Handled(old(state), r.number, accepted)
    {
      if accepted {
        r.needReceipt := true;
        Record(r);
      }
      ret := accepted;
    }

    /** The answer of a query is in hand, or cannot be decoded. */
    method HandleQuery(r: Request, decoded: bool) returns (ret: bool)
      requires Valid() && Known(r) && r.kind == P.Query
      modifies this`state, mine`calls
      ensures Valid() && ret == decoded && state == P.Handled(old(state), r.number, decoded)
    {
      if decoded { CallBack(r); }
      ret := decoded;
    }

    /** A message of blocks or events is in hand, or cannot be decoded. */
    method HandleMessage(r: Request, decoded: bool) returns (ret: bool)
      requires Valid() && Known(r) && r.kind == P.Listener
      modifies this`state, mine`calls
      ensures Valid() && ret == decoded && state == P.Handled(old(state), r.number, decoded)
    {
      if decoded { CallBack(r); }
      ret := decoded;
    }

    /** The error handler of queries. */
    method HandleQueryError(r: Request) returns (ret: bool)
      requires Valid() && Known(r)
      modifies this`state, mine`calls
      ensures Valid() && !ret && state == P.Called(old(state), r.number)
    {
      CallBack(r);
      ret := false;
    }

    /** A whole response has arrived. */
    method OnResponse(r: Request, good: bool)
      requires Valid() && Known(r)
      modifies this`state, mine`processed, mine`success, mine`calls, mine`needReceipt, mine`processingReceipt,
               mine`silent
      ensures Valid() && state == P.Respond(old(state), r.number, good)
    {
      var ret := good;
      MarkProcessed(r);
      if r.kind == P.Commit {
        ret := HandleCommit(r, good);
      } else if r.kind == P.GetReceipt {
        ret := HandleReceipt(r, good);
      } else if r.kind == P.Query {
        ret := HandleQuery(r, good);
      } else if r.kind == P.Listener {
        ret := HandleMessage(r, good);
      }
      SetSuccess(r, ret);
    }

    /** An error message has arrived, or the transport has failed. */
    method ProcessRequestError(r: Request, notFound: bool)
      requires Valid() && Known(r)
      modifies this`state, mine`processed, mine`success, mine`calls, mine`needReceipt, mine`processingReceipt,
               mine`receiptAttempts
      ensures Valid() && state == P.Err(old(state), r.number, notFound)
    {
      MarkProcessed(r);
      if r.parent != null {
        var ret := OnFailedReceipt(r, notFound);
        SetSuccess(r, ret);
      } else if r.kind == P.Query {
        var ret := HandleQueryError(r);
        SetSuccess(r, ret);
      }
    }

    /** Makes a receipt request for a commit; what the transport does with it is given. */
    method GetReceipt(parent: Request, fate: P.Fate) returns (success: bool)
      requires Valid() && Known(parent)
      modifies this, mine
      ensures Valid() && Known(parent) && fresh(mine - old(mine))
      ensures success <==> fate == P.Sent
      ensures state == match fate
        case Refused => old(state)
        case Unsent => P.Made(old(state), P.GetReceipt, parent.number, false, false)
        case Sent => P.Made(old(state), P.GetReceipt, parent.number, false, true)
    {
      if fate == P.Refused { return false; }
      var r := NewRequest(P.GetReceipt, parent, false);
      HandOver(r, fate == P.Sent);
      P.MadeSent(old(state), P.GetReceipt, parent.number, false, fate == P.Sent);
      success := fate == P.Sent;
    }

    /** The one outcome of a request. */
    method Deliver(r: Request, o: P.Outcome)
      requires Valid() && Known(r)
      modifies this`state, mine`processed, mine`success, mine`calls, mine`needReceipt, mine`processingReceipt,
               mine`receiptAttempts, mine`silent
      ensures Valid() && state == P.Deliver(old(state), r.number, o)
    {
      match o
      case Accepted => OnResponse(r, true);
      case Rejected => OnResponse(r, false);
      case NotFound => ProcessRequestError(r, true);
      case Failed => ProcessRequestError(r, false);
    }

    method MarkFetching(r: Request)
      requires Valid() && Known(r)
      modifies this`state, r`processingReceipt
      ensures Valid() && state == P.Waiting(old(state), r.number)
    {
      r.processingReceipt := true;
      Record(r);
    }

    ghost method CountFetch(r: Request)
      requires Valid() && Known(r)
      modifies this`state, r`fetches, r`child
      ensures Valid() && state == P.Fetching(old(state), r.number)
    {
      hide Linked;
      r.fetches, r.child := r.fetches + 1, made;
      Record(r);
    }

    method LoseReceipt(r: Request)
      requires Valid() && Known(r)
      modifies this`state, r`needReceipt, r`silent
      ensures Valid() && state == P.Lost(old(state), r.number)
    {
      r.needReceipt := false;
      r.silent := true;
      Record(r);
    }

    /** Marks a commit and asks for its receipt; when that fails it is not asked for again. */
    method FetchReceipt(r: Request, fate: P.Fate)
      requires Valid() && Known(r)
      modifies this, mine
      ensures Valid() && state == P.Fetch(old(state), r.number, fate)
      ensures fresh(mine - old(mine))
    {
      MarkFetching(r);
      if fate == P.Sent { CountFetch(r); }
      var success := GetReceipt(r, fate);
      if !success { LoseReceipt(r); }
    }

    /** The first listed commit whose receipt is to be asked for. */
    method FirstReady() returns (request: Request?)
      requires Valid()
      ensures request == Nth(list, P.First(state, P.Ready))
    {
      request := requests;
      ghost var k := 0;
      while request != null
         && !(request.processed && request.success && request.needReceipt && !request.processingReceipt)
        invariant k <= |list| && request == Nth(list, k)
        invariant P.First(state, P.Ready) == P.FirstFrom(state, P.Ready, k)
        decreases |list| - k
      {
        assert request.next == Nth(list, k + 1);
        request := request.next;
        k := k + 1;
      }
    }

    /** One round of the scan: the first commit's receipt is asked for. */
    method FetchFirst(r: Request, f: P.Fate, ghost fate: (nat, nat) -> P.Fate)
      requires Valid() && r == Nth(list, P.First(state, P.Ready)) && f == fate(r.number, r.receiptAttempts)
      modifies this, mine
      ensures Valid() && fresh(mine - old(mine))
      ensures P.CheckReceipts(state, fate) == P.CheckReceipts(old(state), fate)
      ensures P.ReadyCount(state.info) < old(P.ReadyCount(state.info))
    {
      assert Known(r);
      P.CheckStep(state, fate, P.First(state, P.Ready));
      FetchReceipt(r, f);
    }

    /** The scan has come to a request, or to its end, and will end in a known state. */
    ghost predicate Scanning(r: Request?, fate: (nat, nat) -> P.Fate, end: P.State, ready: nat)
      reads this, list`next, all
    {
      && Valid() && r == Nth(list, P.First(state, P.Ready))
      && P.CheckReceipts(state, fate) == end && ready == P.ReadyCount(state.info)
    }

    /** One round of the scan, and the list looked through again. */
    method NextRound(r: Request, f: P.Fate, ghost fate: (nat, nat) -> P.Fate, ghost end: P.State, ghost ready: nat)
      returns (request: Request?, ghost left: nat)
      requires Scanning(r, fate, end, ready) && f == fate(r.number, r.receiptAttempts)
      modifies this, mine
      ensures fresh(mine - old(mine)) && Scanning(request, fate, end, left) && left < ready
    {
      FetchFirst(r, f, fate);
      request := FirstReady();
      left := P.ReadyCount(state.info);
    }

    /** Scans the list for a commit whose receipt is to be asked for, from its start after each one. */
    method CheckReceipts(fate: (nat, nat) -> P.Fate)
      requires Valid()
      modifies this, mine
      ensures Valid() && state == P.CheckReceipts(old(state), fate)
      ensures fresh(mine - old(mine))
    {
      hide P.Fetch, P.ReadyCount, P.First;
      ghost var end, ready := P.CheckReceipts(state, fate), P.ReadyCount(state.info);
      var request := FirstReady();
      while request != null
        invariant Scanning(request, fate, end, ready) && fresh(mine - old(mine))
        decreases ready
      {
        request, ready := NextRound(request, fate(request.number, request.receiptAttempts), fate, end, ready);
      }
    }

    /** The first listed request that nothing will happen to any more. */
    method FirstFinished() returns (request: Request?, ghost k: nat)
      requires Valid()
      ensures k == P.First(state, P.Finished) && request == Nth(list, k)
    {
      request := requests;
      k := 0;
      while request != null && !(request.processed && !request.needReceipt && !request.keepActive)
        invariant k <= |list| && request == Nth(list, k)
        invariant P.First(state, P.Finished) == P.FirstFrom(state, P.Finished, k)
        decreases |list| - k
      {
        assert request.next == Nth(list, k + 1);
        request := request.next;
        k := k + 1;
      }
    }

    /** Takes a request off the list; its memory is not used again. */
    method FreeRequest(r: Request, ghost k: nat)
      requires Valid() && k < |list| && list[k] == r
      modifies this`state, this`requests, this`list, mine`next
      ensures Valid() && state == P.Dropped(old(state), k)
    {
      hide Linked;
      ghost var was, t := list, P.Dropped(state, k);
      ListRemove(r, k);
      forall j | 0 <= j < |list| ensures t.live[j] == list[j].number {
        assert list[j] == was[if j < k then j else j + 1];
      }
      state := t;
    }

    /** One round: the first finished request is released, and the list looked through again. */
    method ReleaseFirst(r: Request, ghost at: nat) returns (request: Request?, ghost k: nat)
      requires Valid() && at == P.First(state, P.Finished) && r == Nth(list, at)
      modifies this`state, this`requests, this`list, mine`next
      ensures Valid() && k == P.First(state, P.Finished) && request == Nth(list, k)
      ensures P.Release(state) == P.Release(old(state)) && |state.live| < old(|state.live|)
    {
      FreeRequest(r, at);
      request, k := FirstFinished();
    }

    /** Releases finished requests, starting from the beginning after each one. */
    method ReleaseFinished()
      requires Valid()
      modifies this`state, this`requests, this`list, mine`next
      ensures Valid() && state == P.Release(old(state))
    {
      hide P.First;
      ghost var k;
      var request;
      request, k := FirstFinished();
      while request != null
        invariant Valid() && k == P.First(state, P.Finished) && request == Nth(list, k)
        invariant P.Release(state) == P.Release(old(state))
        decreases |state.live|
      {
        request, k := ReleaseFirst(request, k);
      }
    }

    /** What the client does between waits: it asks for receipts and releases what is finished. */
    method ProcessRequests(fate: (nat, nat) -> P.Fate)
      requires Valid()
      modifies this, mine
      ensures Valid() && fresh(mine - old(mine)) && state == P.Process(old(state), fate)
    {
      if requests == null { return; }
      CheckReceipts(fate);
      ReleaseFinished();
    }
  }
}
