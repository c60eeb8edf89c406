/**
 * The life of asynchronous requests: a commit is answered, its receipt is fetched and fetched again,
 * the user's callback is called, and processed requests are released. Requests are numbered in the
 * order of their creation; what the transport does is given from outside.
 */
module Protocol {
  /** A commit, a receipt request, a query, a request for blocks or events, or one without a callback. */
  datatype Kind = Commit | GetReceipt | Query | Listener | Other

  /** How an attempt to fetch a receipt ends: no request is made, it is made but not handed over, or it is sent. */
  datatype Fate = Refused | Unsent | Sent

  /** The one outcome of a request: a good or bad response, "tx not found", or another error. */
  datatype Outcome = Accepted | Rejected | NotFound | Failed

  /**
   * The flags of a request, and what has happened to it: the receipt requests sent for it and the last of
   * them, the calls of its user callback, and whether its receipt was lost without one.
   */
  datatype Info = Info(
    kind: Kind, parent: int, keepActive: bool, sent: bool,
    processed: bool, success: bool, needReceipt: bool, processingReceipt: bool, attempts: nat,
    fetches: nat, child: int, calls: nat, silent: bool)

  /** All requests ever made, and the list of those not yet released. */
  datatype State = State(info: seq<Info>, live: seq<nat>)

  const MAX_ATTEMPTS: nat := 10

  function Fresh(kind: Kind, parent: int, keepActive: bool, sent: bool): Info {
    Info(kind, parent, keepActive, sent, false, false, false, false, 0, 0, -1, 0, false)
  }

  /** A request waits for its outcome. */
  predicate InFlight(s: State, i: nat)
    requires i < |s.info|
  {
    s.info[i].sent && !s.info[i].processed
  }

  /** A stream that stays open: any number of messages may come. */
  predicate Subscribed(r: Info) {
    r.kind == Listener && r.keepActive && r.sent
  }

  /** Something may still be delivered to a request. */
  predicate Expects(s: State, i: nat)
    requires i < |s.info|
  {
    InFlight(s, i) || Subscribed(s.info[i])
  }

  predicate Sound(s: State) {
    && (forall k :: 0 <= k < |s.live| ==> s.live[k] < |s.info|)
    && (forall i :: 0 <= i < |s.info| ==> -1 <= s.info[i].parent < i)
  }

  // ---- steps ----

  /** A new request at the end of the list. */
  function Made(s: State, kind: Kind, parent: int, keepActive: bool, sent: bool): (t: State)
    requires Sound(s) && -1 <= parent < |s.info|
    ensures Sound(t) && |t.info| == |s.info| + 1 && |t.live| == |s.live| + 1
    ensures forall i :: 0 <= i < |s.info| ==> t.info[i] == s.info[i]
    ensures forall k :: 0 <= k < |s.live| ==> t.live[k] == s.live[k]
  {
    State(s.info + [Fresh(kind, parent, keepActive, sent)], s.live + [|s.info|])
  }

  /** The newest request is handed to the transport. */
  lemma MadeSent(s: State, kind: Kind, parent: int, keepActive: bool, sent: bool)
    requires Sound(s) && -1 <= parent < |s.info|
    ensures var t := Made(s, kind, parent, keepActive, false); var n := |s.info|;
            t.(info := t.info[n := t.info[n].(sent := sent)]) == Made(s, kind, parent, keepActive, sent)
  {}

  /** A user's call makes a request. */
  function Open(s: State, kind: Kind, keepActive: bool, sent: bool): State
    requires Sound(s)
  {
    Made(s, kind, -1, keepActive, sent)
  }

  /** The request whose user callback a receipt request calls. */
  function Owner(s: State, i: nat): nat
    requires i < |s.info|
  {
    if s.info[i].parent >= 0 then s.info[i].parent else i
  }

  function With(s: State, i: nat, r: Info): (t: State)
    requires i < |s.info| && Sound(s) && r.parent == s.info[i].parent
    ensures Sound(t) && |t.info| == |s.info| && t.live == s.live
    ensures t.info[i] == r
  {
    s.(info := s.info[i := r])
  }

  function Called(s: State, i: nat): (t: State)
    requires i < |s.info| && Sound(s)
    ensures Sound(t) && |t.info| == |s.info| && t.live == s.live && t.info[i].parent == s.info[i].parent
  {
    var o := Owner(s, i);
    With(s, o, s.info[o].(calls := s.info[o].calls + 1))
  }

  /** Request i's parent, with a new record. */
  function WithParent(s: State, i: nat, p: Info): (t: State)
    requires i < |s.info| && Sound(s) && s.info[i].parent >= 0 && p.parent == s.info[s.info[i].parent].parent
    ensures Sound(t) && |t.info| == |s.info| && t.live == s.live && t.info[i].parent == s.info[i].parent
  {
    s.(info := s.info[s.info[i].parent := p])
  }

  function Parent(s: State, i: nat): Info
    requires i < |s.info| && Sound(s) && s.info[i].parent >= 0
  {
    s.info[s.info[i].parent]
  }

  /** The commit gives up its receipt. */
  function GivenUp(s: State, i: nat): (t: State)
    requires i < |s.info| && Sound(s) && s.info[i].parent >= 0
    ensures Sound(t) && |t.info| == |s.info| && t.live == s.live && t.info[i].parent == s.info[i].parent
  {
    WithParent(s, i, Parent(s, i).(needReceipt := false))
  }

  /** The commit will ask for its receipt again. */
  function Later(s: State, i: nat): (t: State)
    requires i < |s.info| && Sound(s) && s.info[i].parent >= 0
    ensures Sound(t) && |t.info| == |s.info| && t.live == s.live && t.info[i].parent == s.info[i].parent
  {
    WithParent(s, i, Parent(s, i).(processingReceipt := false))
  }

  /** One more attempt of the commit has failed. */
  function Counted(s: State, i: nat): (t: State)
    requires i < |s.info| && Sound(s) && s.info[i].parent >= 0
    ensures Sound(t) && |t.info| == |s.info| && t.live == s.live && t.info[i].parent == s.info[i].parent
  {
    WithParent(s, i, Parent(s, i).(attempts := Parent(s, i).attempts + 1))
  }

  function Noted(s: State, i: nat, lost: bool): (t: State)
    requires i < |s.info| && Sound(s) && s.info[i].parent >= 0
    ensures Sound(t) && |t.info| == |s.info| && t.live == s.live && t.info[i].parent == s.info[i].parent
  {
    WithParent(s, i, Parent(s, i).(silent := Parent(s, i).silent || lost))
  }

  /** The commit no longer waits for its receipt, which may have been lost. */
  function Settled(s: State, i: nat, lost: bool): (t: State)
    requires i < |s.info| && Sound(s)
    ensures Sound(t) && |t.info| == |s.info| && t.live == s.live && t.info[i].parent == s.info[i].parent
  {
    if s.info[i].parent < 0 then s else Noted(Later(GivenUp(s, i), i), i, lost)
  }

  /** The response handlers: an accepted commit wants its receipt, a receipt settles its commit. */
  function Handled(s: State, i: nat, good: bool): (t: State)
    requires i < |s.info| && Sound(s)
    ensures Sound(t) && |t.info| == |s.info| && t.live == s.live && t.info[i].parent == s.info[i].parent
  {
    match s.info[i].kind
    case Commit => if good then With(s, i, s.info[i].(needReceipt := true)) else s
    case GetReceipt => Settled(if good then Called(s, i) else s, i, !good)
    case Query => if good then Called(s, i) else s
    case Listener => if good then Called(s, i) else s
    case Other => s
  }

  function Processed(s: State, i: nat): (t: State)
    requires i < |s.info| && Sound(s)
    ensures Sound(t) && |t.info| == |s.info| && t.live == s.live && t.info[i].parent == s.info[i].parent
  {
    With(s, i, s.info[i].(processed := true))
  }

  function Respond(s: State, i: nat, good: bool): (t: State)
    requires i < |s.info| && Sound(s)
    ensures Sound(t) && |t.info| == |s.info| && t.live == s.live
  {
    var t := Handled(Processed(s, i), i, good);
    With(t, i, t.info[i].(success := good))
  }

  /** "tx not found" is tried again, up to ten times; otherwise the callback hears of the error. */
  function FailedReceipt(s: State, i: nat, notFound: bool): (t: State)
    requires i < |s.info| && Sound(s)
    ensures Sound(t) && |t.info| == |s.info| && t.live == s.live && t.info[i].parent == s.info[i].parent
  {
    if s.info[i].parent < 0 then Called(s, i)
    else if !notFound then Called(GivenUp(s, i), i)
    else if Parent(s, i).attempts + 1 >= MAX_ATTEMPTS then Called(GivenUp(Counted(s, i), i), i)
    else Later(Counted(s, i), i)
  }

  /** The error path: receipt requests with a parent and queries have a handler, which reports failure. */
  function Err(s: State, i: nat, notFound: bool): (t: State)
    requires i < |s.info| && Sound(s)
    ensures Sound(t) && |t.info| == |s.info| && t.live == s.live
  {
    if s.info[i].parent < 0 && s.info[i].kind != Query then Processed(s, i)
    else
      var p := Processed(s, i);
      var t := if s.info[i].parent < 0 then Called(p, i) else FailedReceipt(p, i, notFound);
      With(t, i, t.info[i].(success := false))
  }

  function Deliver(s: State, i: nat, o: Outcome): (t: State)
    requires i < |s.info| && Sound(s)
    ensures Sound(t) && |t.info| == |s.info| && t.live == s.live
  {
    match o
    case Accepted => Respond(s, i, true)
    case Rejected => Respond(s, i, false)
    case NotFound => Err(s, i, true)
    case Failed => Err(s, i, false)
  }

  /** A commit that waits for its receipt to be asked for. */
  predicate Ready(r: Info) {
    r.processed && r.success && r.needReceipt && !r.processingReceipt
  }

  /** The commit waits for a receipt request. */
  function Waiting(s: State, i: nat): (t: State)
    requires i < |s.info| && Sound(s)
    ensures Sound(t) && |t.info| == |s.info|
  {
    With(s, i, s.info[i].(processingReceipt := true))
  }

  /** The commit's receipt request is the next one made. */
  function Fetching(s: State, i: nat): (t: State)
    requires i < |s.info| && Sound(s)
    ensures Sound(t) && |t.info| == |s.info|
  {
    With(s, i, s.info[i].(fetches := s.info[i].fetches + 1, child := |s.info|))
  }

  function Marked(s: State, i: nat, fate: Fate): (t: State)
    requires i < |s.info| && Sound(s)
    ensures Sound(t) && |t.info| == |s.info|
  {
    if fate.Sent? then Fetching(Waiting(s, i), i) else Waiting(s, i)
  }

  /** The receipt cannot be asked for, and is not asked for again. */
  function Lost(s: State, i: nat): (t: State)
    requires i < |s.info| && Sound(s)
    ensures Sound(t) && |t.info| == |s.info|
  {
    With(s, i, s.info[i].(needReceipt := false, silent := true))
  }

  /** Asks for the receipt of request i. */
  function Fetch(s: State, i: nat, fate: Fate): (t: State)
    requires i < |s.info| && Sound(s)
    ensures Sound(t)
  {
    var m := Marked(s, i, fate);
    match fate
    case Refused => Lost(m, i)
    case Unsent => Lost(Made(m, GetReceipt, i, false, false), i)
    case Sent => Made(m, GetReceipt, i, false, true)
  }

  function FirstFrom(s: State, p: Info -> bool, j: nat): (k: nat)
    requires Sound(s) && j <= |s.live|
    ensures j <= k <= |s.live| && (k < |s.live| ==> p(s.info[s.live[k]]))
    ensures forall i :: j <= i < k ==> !p(s.info[s.live[i]])
    decreases |s.live| - j
  {
    if j == |s.live| || p(s.info[s.live[j]]) then j else FirstFrom(s, p, j + 1)
  }

  /** The position of the first listed request that satisfies p, or the end of the list. */
  function First(s: State, p: Info -> bool): (k: nat)
    requires Sound(s)
    ensures k <= |s.live| && (k < |s.live| ==> p(s.info[s.live[k]]))
    ensures forall j :: 0 <= j < k ==> !p(s.info[s.live[j]])
  {
    FirstFrom(s, p, 0)
  }

  /** Number of requests that wait for their receipt to be asked for. */
  function ReadyCount(info: seq<Info>): nat {
    if |info| == 0 then 0 else ReadyCount(info[..|info| - 1]) + (if Ready(info[|info| - 1]) then 1 else 0)
  }

  lemma {:induction false} ReadyCountUpdate(info: seq<Info>, i: nat, r: Info)
    requires i < |info|
    ensures ReadyCount(info[i := r])
         == ReadyCount(info) - (if Ready(info[i]) then 1 else 0) + (if Ready(r) then 1 else 0)
  {
    var n := |info| - 1;
    if i < n {
      ReadyCountUpdate(info[..n], i, r);
      assert info[i := r][..n] == info[..n][i := r];
    } else {
      assert info[i := r][..n] == info[..n];
    }
  }

  lemma FetchCounts(s: State, i: nat, fate: Fate)
    requires Sound(s) && i < |s.info| && Ready(s.info[i])
    ensures Sound(Fetch(s, i, fate)) && ReadyCount(Fetch(s, i, fate).info) == ReadyCount(s.info) - 1
  {
    var t := Fetch(s, i, fate);
    ReadyCountUpdate(s.info, i, t.info[i]);
    assert t.info[..|s.info|] == s.info[i := t.info[i]];
    if fate.Refused? { assert t.info == s.info[i := t.info[i]]; }
  }

  /** Scans the list from its start until no request is ready. */
  function CheckReceipts(s: State, fate: (nat, nat) -> Fate): (t: State)
    requires Sound(s)
    ensures Sound(t) && First(t, Ready) == |t.live|
    decreases ReadyCount(s.info)
  {
    var k := First(s, Ready);
    if k == |s.live| then s
    else
      var i := s.live[k];
      FetchCounts(s, i, fate(i, s.info[i].attempts));
      CheckReceipts(Fetch(s, i, fate(i, s.info[i].attempts)), fate)
  }

  /** One round of the scan. */
  lemma CheckStep(s: State, fate: (nat, nat) -> Fate, k: nat)
    requires Sound(s) && k == First(s, Ready) < |s.live|
    ensures var t := Fetch(s, s.live[k], fate(s.live[k], s.info[s.live[k]].attempts));
            CheckReceipts(s, fate) == CheckReceipts(t, fate) && ReadyCount(t.info) < ReadyCount(s.info)
  {
    FetchCounts(s, s.live[k], fate(s.live[k], s.info[s.live[k]].attempts));
  }

  /** A request that nothing will happen to any more. */
  predicate Finished(r: Info) {
    r.processed && !r.needReceipt && !r.keepActive
  }

  /** The list without its k-th request. */
  function Dropped(s: State, k: nat): (t: State)
    requires Sound(s) && k < |s.live|
    ensures Sound(t) && t.info == s.info && |t.live| == |s.live| - 1
    ensures forall j :: 0 <= j < |t.live| ==> t.live[j] == s.live[if j < k then j else j + 1]
  {
    s.(live := s.live[..k] + s.live[k + 1..])
  }

  /** Releases the first finished request, again and again. */
  function Release(s: State): (t: State)
    requires Sound(s)
    ensures Sound(t) && t.info == s.info && First(t, Finished) == |t.live|
    decreases |s.live|
  {
    var k := First(s, Finished);
    if k == |s.live| then s else Release(Dropped(s, k))
  }

  function Process(s: State, fate: (nat, nat) -> Fate): State
    requires Sound(s)
  {
    if |s.live| == 0 then s else Release(CheckReceipts(s, fate))
  }

  // ---- what every run keeps ----

  predicate CommitOk(r: Info) {
    && r.attempts <= r.fetches <= MAX_ATTEMPTS && r.calls <= 1
    && (!r.processed ==>
         && !r.success && !r.needReceipt && !r.processingReceipt && r.fetches == 0 && r.calls == 0 && !r.silent)
    && (r.processed && !r.success ==> !r.needReceipt && r.fetches == 0 && r.calls == 0)
    && (r.needReceipt ==>
         && r.processed && r.success && r.attempts < MAX_ATTEMPTS && r.calls == 0 && !r.silent
         && r.fetches == r.attempts + (if r.processingReceipt then 1 else 0))
    && (r.processed && r.success && !r.needReceipt ==> r.calls == if r.silent then 0 else 1)
  }

  predicate OtherOk(r: Info) {
    && !r.needReceipt && !r.processingReceipt && r.fetches == 0 && (r.calls <= 1 || Subscribed(r))
    && (!r.processed || r.parent >= 0 || r.kind == Other ==> r.calls == 0)
  }

  predicate KindOk(r: Info) {
    if r.kind == Commit then CommitOk(r) else OtherOk(r)
  }

  /** A receipt request in flight is its parent's last one, and the parent waits for it on the list. */
  predicate ParentWaits(s: State, i: nat)
    requires i < |s.info| && Sound(s)
  {
    var p := s.info[i].parent;
    p >= 0 ==>
      && s.info[i].kind == GetReceipt && s.info[p].kind == Commit
      && (InFlight(s, i) ==> s.info[p].needReceipt && s.info[p].processingReceipt && s.info[p].child == i)
  }

  /** A commit whose receipt is being fetched has a request in flight for it. */
  predicate ChildInFlight(s: State, i: nat)
    requires i < |s.info| && Sound(s)
  {
    s.info[i].needReceipt && s.info[i].processingReceipt ==>
      var c := s.info[i].child; 0 <= c < |s.info| && s.info[c].parent == i && InFlight(s, c)
  }

  predicate Listed(s: State, i: nat)
    requires i < |s.info|
  {
    Expects(s, i) || s.info[i].needReceipt ==> i in s.live
  }

  predicate Inv(s: State) {
    && Sound(s)
    && (forall j, k :: 0 <= j < k < |s.live| ==> s.live[j] != s.live[k])
    && forall i :: 0 <= i < |s.info| ==>
         && KindOk(s.info[i]) && ParentWaits(s, i) && ChildInFlight(s, i) && Listed(s, i)
  }

  lemma OpenKeeps(s: State, kind: Kind, keepActive: bool, sent: bool)
    requires Inv(s)
    ensures Inv(Open(s, kind, keepActive, sent))
  {
    var t := Open(s, kind, keepActive, sent);
    assert forall i :: 0 <= i < |s.info| ==> t.info[i] == s.info[i];
    assert t.live[|s.live|] == |s.info|;
    forall i | 0 <= i < |s.info| ensures Listed(t, i) {
      assert Listed(s, i);
      if i in s.live { var k :| 0 <= k < |s.live| && s.live[k] == i; assert t.live[k] == i; }
    }
  }

  lemma StillListed(a: seq<nat>, b: seq<nat>, j: nat)
    requires a <= b
    ensures j in a ==> j in b
  {
    if j in a { var m :| 0 <= m < |a| && a[m] == j; assert b[m] == j; }
  }

  lemma SentKeeps(s: State, i: nat)
    requires Inv(s) && i < |s.info| && Ready(s.info[i]) && s.info[i].kind == Commit
    ensures Inv(Fetch(s, i, Sent))
  {
    var t, n := Fetch(s, i, Sent), |s.info|;
    assert CommitOk(s.info[i]) && Listed(s, i);
    assert t.live[|s.live|] == n;
    forall j | 0 <= j < n ensures ParentWaits(t, j) && KindOk(t.info[j]) {
      assert ParentWaits(s, j) && KindOk(s.info[j]);
    }
    forall j | 0 <= j < n ensures ChildInFlight(t, j) {
      assert ChildInFlight(s, j);
    }
    forall j | 0 <= j < n ensures Listed(t, j) {
      assert Listed(s, j);
      StillListed(s.live, t.live, j);
    }
    assert ParentWaits(t, n) && ChildInFlight(t, n) && Listed(t, n) && KindOk(t.info[n]);
  }

  lemma GiveUpKeeps(s: State, i: nat)
    requires Inv(s) && i < |s.info| && Ready(s.info[i]) && s.info[i].kind == Commit
    ensures Inv(Fetch(s, i, Refused))
  {
    var t := Fetch(s, i, Refused);
    assert CommitOk(s.info[i]);
    forall j | 0 <= j < |s.info| ensures ParentWaits(t, j) && ChildInFlight(t, j) && Listed(t, j) && KindOk(t.info[j]) {
      assert ParentWaits(s, j) && ChildInFlight(s, j) && Listed(s, j) && KindOk(s.info[j]);
    }
  }

  lemma UnsentKeeps(s: State, i: nat)
    requires Inv(s) && i < |s.info| && s.info[i].kind == Commit
    ensures Inv(State(s.info + [Fresh(GetReceipt, i, false, false)], s.live + [|s.info|]))
  {
    var t, n := State(s.info + [Fresh(GetReceipt, i, false, false)], s.live + [|s.info|]), |s.info|;
    forall j | 0 <= j < n ensures ParentWaits(t, j) && ChildInFlight(t, j) && Listed(t, j) && KindOk(t.info[j]) {
      assert ParentWaits(s, j) && ChildInFlight(s, j) && Listed(s, j) && KindOk(s.info[j]);
      StillListed(s.live, t.live, j);
    }
    assert ParentWaits(t, n) && ChildInFlight(t, n) && Listed(t, n) && KindOk(t.info[n]);
  }

  lemma LostKeeps(s: State, i: nat, fate: Fate)
    requires Inv(s) && i < |s.info| && Ready(s.info[i]) && s.info[i].kind == Commit && !fate.Sent?
    ensures Inv(Fetch(s, i, fate))
  {
    GiveUpKeeps(s, i);
    if fate.Unsent? {
      var m := Marked(s, i, Refused);
      UnsentKeeps(Lost(m, i), i);
      assert Lost(Made(m, GetReceipt, i, false, false), i) == Made(Lost(m, i), GetReceipt, i, false, false);
    }
  }

  lemma FetchKeeps(s: State, k: nat, fate: Fate)
    requires Inv(s) && k < |s.live| && Ready(s.info[s.live[k]])
    ensures Inv(Fetch(s, s.live[k], fate))
  {
    var i := s.live[k];
    assert KindOk(s.info[i]);
    if fate.Sent? { SentKeeps(s, i); } else { LostKeeps(s, i, fate); }
  }

  predicate SameRequest(q: Info, r: Info) {
    && q.kind == r.kind && q.parent == r.parent && q.keepActive == r.keepActive && q.sent == r.sent
    && q.fetches == r.fetches && q.child == r.child
  }

  /** Processing request i, and letting its parent go on or stop waiting, keeps everything. */
  lemma OutcomeKeeps(s: State, t: State, i: nat)
    requires Inv(s) && i < |s.info| && Expects(s, i)
    requires |t.info| == |s.info| && t.live == s.live
    requires forall j :: 0 <= j < |s.info| && j != i && j != s.info[i].parent ==> t.info[j] == s.info[j]
    requires forall j :: 0 <= j < |s.info| ==> SameRequest(t.info[j], s.info[j])
    requires t.info[i].processed && !t.info[i].processingReceipt && KindOk(t.info[i])
    requires var p := s.info[i].parent; p >= 0 ==>
             && t.info[p].processed == s.info[p].processed && CommitOk(t.info[p])
             && !(t.info[p].needReceipt && t.info[p].processingReceipt)
    ensures Inv(t)
  {
    assert ParentWaits(s, i) && Listed(s, i);
    forall j | 0 <= j < |t.info|
      ensures ParentWaits(t, j) && ChildInFlight(t, j) && Listed(t, j) && KindOk(t.info[j])
    {
      assert ParentWaits(s, j) && ChildInFlight(s, j) && Listed(s, j);
    }
  }

  /** The answer to a receipt request settles its commit. */
  lemma ReceiptKeeps(s: State, i: nat, good: bool)
    requires Inv(s) && i < |s.info| && Expects(s, i) && s.info[i].parent >= 0
    ensures Inv(Respond(s, i, good))
  {
    assert ParentWaits(s, i) && KindOk(s.info[i]) && CommitOk(Parent(s, i));
    OutcomeKeeps(s, Respond(s, i, good), i);
  }

  lemma AnswerKeeps(s: State, i: nat, good: bool)
    requires Inv(s) && i < |s.info| && Expects(s, i) && s.info[i].parent < 0
    ensures Inv(Respond(s, i, good))
  {
    assert KindOk(s.info[i]);
    OutcomeKeeps(s, Respond(s, i, good), i);
  }

  lemma RespondKeeps(s: State, i: nat, good: bool)
    requires Inv(s) && i < |s.info| && Expects(s, i)
    ensures Inv(Respond(s, i, good))
  {
    if s.info[i].parent >= 0 { ReceiptKeeps(s, i, good); } else { AnswerKeeps(s, i, good); }
  }

  /** An error of a request without a parent. */
  lemma OrphanErrorKeeps(s: State, i: nat, notFound: bool)
    requires Inv(s) && i < |s.info| && Expects(s, i) && s.info[i].parent < 0
    ensures Inv(Err(s, i, notFound))
  {
    assert ParentWaits(s, i) && KindOk(s.info[i]);
    OutcomeKeeps(s, Err(s, i, notFound), i);
  }

  /** An error other than "tx not found" is reported. */
  lemma ErrorKeeps(s: State, i: nat)
    requires Inv(s) && i < |s.info| && Expects(s, i) && s.info[i].parent >= 0
    ensures Inv(Err(s, i, false))
  {
    assert ParentWaits(s, i) && KindOk(s.info[i]) && CommitOk(Parent(s, i));
    OutcomeKeeps(s, Err(s, i, false), i);
  }

  /** The tenth failed attempt is reported. */
  lemma LastAttemptKeeps(s: State, i: nat)
    requires Inv(s) && i < |s.info| && Expects(s, i) && s.info[i].parent >= 0
    requires Parent(s, i).attempts + 1 >= MAX_ATTEMPTS
    ensures Inv(Err(s, i, true))
  {
    assert ParentWaits(s, i) && KindOk(s.info[i]) && CommitOk(Parent(s, i));
    OutcomeKeeps(s, Err(s, i, true), i);
  }

  /** An earlier failed attempt is followed by another. */
  lemma RetryKeeps(s: State, i: nat)
    requires Inv(s) && i < |s.info| && Expects(s, i) && s.info[i].parent >= 0
    requires Parent(s, i).attempts + 1 < MAX_ATTEMPTS
    ensures Inv(Err(s, i, true))
  {
    assert ParentWaits(s, i) && KindOk(s.info[i]) && CommitOk(Parent(s, i));
    OutcomeKeeps(s, Err(s, i, true), i);
  }

  lemma ErrKeeps(s: State, i: nat, notFound: bool)
    requires Inv(s) && i < |s.info| && Expects(s, i)
    ensures Inv(Err(s, i, notFound))
  {
    if s.info[i].parent < 0 {
      OrphanErrorKeeps(s, i, notFound);
    } else if !notFound {
      ErrorKeeps(s, i);
    } else if Parent(s, i).attempts + 1 >= MAX_ATTEMPTS {
      LastAttemptKeeps(s, i);
    } else {
      RetryKeeps(s, i);
    }
  }

  /** Every outcome keeps what every run keeps. */
  lemma DeliverKeeps(s: State, i: nat, o: Outcome)
    requires Inv(s) && i < |s.info| && Expects(s, i)
    ensures Inv(Deliver(s, i, o))
  {
    if o.Accepted? || o.Rejected? { RespondKeeps(s, i, o.Accepted?); } else { ErrKeeps(s, i, o.NotFound?); }
  }

  /** The receipt scan keeps it, and leaves no receipt to ask for. */
  lemma {:induction false} CheckReceiptsKeeps(s: State, fate: (nat, nat) -> Fate)
    requires Inv(s)
    ensures Inv(CheckReceipts(s, fate))
    decreases ReadyCount(s.info)
  {
    var k := First(s, Ready);
    if k < |s.live| {
      var i := s.live[k];
      FetchCounts(s, i, fate(i, s.info[i].attempts));
      FetchKeeps(s, k, fate(i, s.info[i].attempts));
      CheckReceiptsKeeps(Fetch(s, i, fate(i, s.info[i].attempts)), fate);
    }
  }

  lemma OthersStay(a: seq<nat>, k: nat, i: nat)
    requires k < |a| && i != a[k]
    ensures i in a ==> i in a[..k] + a[k + 1..]
  {
    if i in a {
      var m :| 0 <= m < |a| && a[m] == i;
      assert (a[..k] + a[k + 1..])[if m < k then m else m - 1] == i;
    }
  }

  /** Releasing finished requests keeps it: whoever is waited for is not finished. */
  lemma {:induction false} ReleaseKeeps(s: State)
    requires Inv(s)
    ensures Inv(Release(s))
    decreases |s.live|
  {
    var k := First(s, Finished);
    if k < |s.live| {
      var t := Dropped(s, k);
      forall i | 0 <= i < |s.info| ensures ParentWaits(t, i) && ChildInFlight(t, i) && Listed(t, i) {
        assert ParentWaits(s, i) && ChildInFlight(s, i) && Listed(s, i);
        if Expects(s, i) || s.info[i].needReceipt { OthersStay(s.live, k, i); }
      }
      ReleaseKeeps(t);
    }
  }

  lemma ProcessKeeps(s: State, fate: (nat, nat) -> Fate)
    requires Inv(s)
    ensures Inv(Process(s, fate))
  {
    CheckReceiptsKeeps(s, fate);
    ReleaseKeeps(CheckReceipts(s, fate));
  }

  // ---- the receipt requests of a commit ----

  /** Number of requests sent on behalf of request i. */
  function SentFor(info: seq<Info>, i: nat): nat {
    if |info| == 0 then 0
    else
      var r := info[|info| - 1];
      SentFor(info[..|info| - 1], i) + (if r.parent == i && r.sent then 1 else 0)
  }

  /** What every request records as sent for it is what was sent for it. */
  predicate Tally(s: State) {
    forall i :: 0 <= i < |s.info| ==> SentFor(s.info, i) == s.info[i].fetches
  }

  lemma SentForNew(info: seq<Info>, r: Info, i: nat)
    ensures SentFor(info + [r], i) == SentFor(info, i) + (if r.parent == i && r.sent then 1 else 0)
  {
    assert (info + [r])[..|info|] == info;
  }

  lemma {:induction false} SentForSame(q: seq<Info>, r: seq<Info>, i: nat)
    requires |q| == |r| && forall j :: 0 <= j < |q| ==> q[j].parent == r[j].parent && q[j].sent == r[j].sent
    ensures SentFor(q, i) == SentFor(r, i)
  {
    if |q| > 0 { SentForSame(q[..|q| - 1], r[..|r| - 1], i); }
  }

  /** Nothing is sent for a request before it is made. */
  lemma {:induction false} SentForNone(info: seq<Info>, i: nat)
    requires |info| <= i && forall j :: 0 <= j < |info| ==> info[j].parent < j
    ensures SentFor(info, i) == 0
  {
    if |info| > 0 { SentForNone(info[..|info| - 1], i); }
  }

  /** Changes that leave parents, sending and records alone keep the tally. */
  lemma TallySame(s: State, t: State)
    requires Tally(s) && |t.info| == |s.info|
    requires forall j :: 0 <= j < |s.info| ==> SameRequest(t.info[j], s.info[j])
    ensures Tally(t)
  {
    forall i | 0 <= i < |t.info| ensures SentFor(t.info, i) == t.info[i].fetches {
      SentForSame(s.info, t.info, i);
    }
  }

  /** A request that is made, with the record of its parent. */
  lemma TallyMade(s: State, q: seq<Info>, r: Info, t: State)
    requires Sound(s) && Tally(s) && r.fetches == 0 && |q| == |s.info| && t.info == q + [r] && r.parent < |s.info|
    requires forall j :: 0 <= j < |q| ==> q[j].parent == s.info[j].parent && q[j].sent == s.info[j].sent
    requires forall j :: 0 <= j < |q| ==>
      q[j].fetches == s.info[j].fetches + (if r.parent == j && r.sent then 1 else 0)
    ensures Tally(t)
  {
    forall i | 0 <= i < |t.info| ensures SentFor(t.info, i) == t.info[i].fetches {
      SentForNew(q, r, i);
      SentForSame(s.info, q, i);
      if i == |q| { SentForNone(s.info, i); }
    }
  }

  lemma TallyFetch(s: State, i: nat, fate: Fate)
    requires Sound(s) && i < |s.info| && Tally(s)
    ensures Tally(Fetch(s, i, fate))
  {
    var t := Fetch(s, i, fate);
    if fate.Refused? {
      TallySame(s, t);
    } else {
      TallyMade(s, t.info[..|s.info|], Fresh(GetReceipt, i, false, fate.Sent?), t);
    }
  }

  lemma {:induction false} TallyScan(s: State, fate: (nat, nat) -> Fate)
    requires Sound(s) && Tally(s)
    ensures Tally(CheckReceipts(s, fate))
    decreases ReadyCount(s.info)
  {
    var k := First(s, Ready);
    if k < |s.live| {
      var f := fate(s.live[k], s.info[s.live[k]].attempts);
      FetchCounts(s, s.live[k], f);
      TallyFetch(s, s.live[k], f);
      TallyScan(Fetch(s, s.live[k], f), fate);
    }
  }

  predicate SameRequests(s: State, t: State) {
    |t.info| == |s.info| && forall j :: 0 <= j < |s.info| ==> SameRequest(t.info[j], s.info[j])
  }

  lemma SameTrans(s: State, t: State, u: State)
    requires SameRequests(s, t) && SameRequests(t, u)
    ensures SameRequests(s, u)
  {}

  /** The single steps make no request and send none. */
  lemma StepsSame(s: State, i: nat)
    requires Sound(s) && i < |s.info|
    ensures SameRequests(s, s) && SameRequests(s, Processed(s, i)) && SameRequests(s, Called(s, i))
  {}

  lemma ParentStepsSame(s: State, i: nat, lost: bool)
    requires Sound(s) && i < |s.info| && s.info[i].parent >= 0
    ensures SameRequests(s, GivenUp(s, i)) && SameRequests(s, Later(s, i)) && SameRequests(s, Counted(s, i))
    ensures SameRequests(s, Noted(s, i, lost))
  {}

  lemma SuccessSame(s: State, i: nat, success: bool)
    requires Sound(s) && i < |s.info|
    ensures SameRequests(s, With(s, i, s.info[i].(success := success)))
  {}

  lemma SettledSame(s: State, i: nat, lost: bool)
    requires Sound(s) && i < |s.info|
    ensures SameRequests(s, Settled(s, i, lost))
  {
    hide GivenUp, Later, Noted, SameRequests;
    StepsSame(s, i);
    if s.info[i].parent >= 0 {
      var t := GivenUp(s, i);
      var u := Later(t, i);
      ParentStepsSame(s, i, lost);
      ParentStepsSame(t, i, lost);
      ParentStepsSame(u, i, lost);
      SameTrans(s, t, u);
      SameTrans(s, u, Noted(u, i, lost));
    }
  }

  lemma HandledSame(s: State, i: nat, good: bool)
    requires Sound(s) && i < |s.info|
    ensures SameRequests(s, Handled(s, i, good))
  {
    if s.info[i].kind == GetReceipt {
      hide Called, Settled, SameRequests;
      var c := if good then Called(s, i) else s;
      StepsSame(s, i);
      SettledSame(c, i, !good);
      SameTrans(s, c, Settled(c, i, !good));
    }
  }

  /** Handling a response makes no request and sends none. */
  lemma RespondSame(s: State, i: nat, good: bool)
    requires Sound(s) && i < |s.info|
    ensures SameRequests(s, Respond(s, i, good))
  {
    hide Processed, Handled, SameRequests, With;
    var p := Processed(s, i);
    var h := Handled(p, i, good);
    StepsSame(s, i);
    HandledSame(p, i, good);
    SuccessSame(h, i, good);
    SameTrans(s, p, h);
    SameTrans(s, h, Respond(s, i, good));
  }

  lemma FailedSame(s: State, i: nat, notFound: bool)
    requires Sound(s) && i < |s.info|
    ensures SameRequests(s, FailedReceipt(s, i, notFound))
  {
    hide Called, GivenUp, Later, Counted, SameRequests;
    StepsSame(s, i);
    if s.info[i].parent >= 0 {
      ParentStepsSame(s, i, false);
      var c := Counted(s, i);
      ParentStepsSame(c, i, false);
      SameTrans(s, c, Later(c, i));
      var g := GivenUp(c, i);
      SameTrans(s, c, g);
      StepsSame(g, i);
      SameTrans(s, g, Called(g, i));
      var h := GivenUp(s, i);
      StepsSame(h, i);
      SameTrans(s, h, Called(h, i));
    }
  }

  /** Neither does an error. */
  lemma ErrSame(s: State, i: nat, notFound: bool)
    requires Sound(s) && i < |s.info|
    ensures SameRequests(s, Err(s, i, notFound))
  {
    hide Processed, Called, FailedReceipt, SameRequests, With;
    var p := Processed(s, i);
    var f := if s.info[i].parent < 0 then Called(p, i) else FailedReceipt(p, i, notFound);
    StepsSame(s, i);
    StepsSame(p, i);
    FailedSame(p, i, notFound);
    SuccessSame(f, i, false);
    SameTrans(s, p, f);
    SameTrans(s, f, With(f, i, f.info[i].(success := false)));
  }

  lemma TallyOutcome(s: State, i: nat, o: Outcome)
    requires Sound(s) && i < |s.info| && Tally(s)
    ensures Tally(Deliver(s, i, o))
  {
    RespondSame(s, i, o.Accepted?);
    ErrSame(s, i, o.NotFound?);
    TallySame(s, Deliver(s, i, o));
  }

  // ---- whole runs ----

  datatype Event =
    | Opened(kind: Kind, keepActive: bool, sent: bool)
    | Delivered(i: nat, outcome: Outcome)
    | Scanned(fate: (nat, nat) -> Fate)

  /** Outcomes only come for requests that wait for one. */
  predicate Legal(s: State, e: Event) {
    e.Delivered? ==> e.i < |s.info| && Expects(s, e.i)
  }

  function Apply(s: State, e: Event): (t: State)
    requires Sound(s) && Legal(s, e)
    ensures Sound(t)
  {
    match e
    case Opened(kind, keepActive, sent) => Open(s, kind, keepActive, sent)
    case Delivered(i, o) => Deliver(s, i, o)
    case Scanned(fate) => Process(s, fate)
  }

  lemma ApplyKeeps(s: State, e: Event)
    requires Inv(s) && Legal(s, e)
    ensures Inv(Apply(s, e))
  {
    match e
    case Opened(kind, keepActive, sent) => OpenKeeps(s, kind, keepActive, sent);
    case Delivered(i, o) => DeliverKeeps(s, i, o);
    case Scanned(fate) => ProcessKeeps(s, fate);
  }

  lemma TallyKeeps(s: State, e: Event)
    requires Sound(s) && Tally(s) && Legal(s, e)
    ensures Tally(Apply(s, e))
  {
    match e
    case Opened(kind, keepActive, sent) =>
      TallyMade(s, s.info, Fresh(kind, -1, keepActive, sent), Apply(s, e));
    case Delivered(i, o) => TallyOutcome(s, i, o);
    case Scanned(fate) => TallyScan(s, fate);
  }

  /** The state after a run of events; an outcome nobody waits for does not happen. */
  function Run(es: seq<Event>): (s: State)
    ensures Sound(s)
  {
    if |es| == 0 then State([], [])
    else
      var r, e := Run(es[..|es| - 1]), es[|es| - 1];
      if Legal(r, e) then Apply(r, e) else r
  }

  lemma InvSafe(s: State)
    requires Inv(s)
    ensures forall i :: 0 <= i < |s.info| ==> s.info[i].fetches <= MAX_ATTEMPTS
    ensures forall i :: 0 <= i < |s.info| ==> s.info[i].calls <= 1 || Subscribed(s.info[i])
    ensures forall i :: 0 <= i < |s.info| && InFlight(s, i) ==>
              i in s.live && (s.info[i].parent >= 0 ==> s.info[i].parent in s.live)
    ensures forall i, j :: 0 <= i < j < |s.info| && InFlight(s, i) && InFlight(s, j) ==>
              s.info[i].parent == s.info[j].parent ==> s.info[i].parent < 0
    ensures forall i :: 0 <= i < |s.info| && s.info[i].kind == Commit && s.info[i].success && !s.info[i].needReceipt ==>
              s.info[i].calls == if s.info[i].silent then 0 else 1
  {
    forall i | 0 <= i < |s.info|
      ensures s.info[i].fetches <= MAX_ATTEMPTS && (s.info[i].calls <= 1 || Subscribed(s.info[i]))
      ensures InFlight(s, i) ==> i in s.live && (s.info[i].parent >= 0 ==> s.info[i].parent in s.live)
    {
      assert KindOk(s.info[i]) && Listed(s, i) && ParentWaits(s, i);
      if s.info[i].parent >= 0 { assert Listed(s, s.info[i].parent); }
    }
    forall i, j | 0 <= i < j < |s.info| && InFlight(s, i) && InFlight(s, j) && s.info[i].parent == s.info[j].parent
      ensures s.info[i].parent < 0
    {
      assert ParentWaits(s, i) && ParentWaits(s, j);
    }
    forall i | 0 <= i < |s.info| && s.info[i].kind == Commit && s.info[i].success && !s.info[i].needReceipt
      ensures s.info[i].calls == if s.info[i].silent then 0 else 1
    {
      assert KindOk(s.info[i]);
    }
  }

  /**
   * In every run: at most ten receipt requests are sent for a commit, which its record counts, at most one of
   * them waits for its outcome and then its commit is still listed, and no user callback but that of a stream is
   * called twice. A committed transaction that no longer wants a receipt has had its callback called once, unless
   * a receipt request could not be sent or its answer not be decoded.
   */
  lemma {:induction false} Safe(es: seq<Event>, s: State)
    requires s == Run(es)
    ensures Inv(s) && Tally(s)
    ensures forall i :: 0 <= i < |s.info| ==> SentFor(s.info, i) <= 10
    ensures forall i :: 0 <= i < |s.info| ==> s.info[i].calls <= 1 || Subscribed(s.info[i])
    ensures forall i :: 0 <= i < |s.info| && InFlight(s, i) ==>
              i in s.live && (s.info[i].parent >= 0 ==> s.info[i].parent in s.live)
    ensures forall i, j :: 0 <= i < j < |s.info| && InFlight(s, i) && InFlight(s, j) ==>
              s.info[i].parent == s.info[j].parent ==> s.info[i].parent < 0
    ensures forall i :: 0 <= i < |s.info| && s.info[i].kind == Commit && s.info[i].success && !s.info[i].needReceipt ==>
              s.info[i].calls == if s.info[i].silent then 0 else 1
    decreases |es|
  {
    if |es| > 0 {
      var r, e := Run(es[..|es| - 1]), es[|es| - 1];
      Safe(es[..|es| - 1], r);
      if Legal(r, e) {
        ApplyKeeps(r, e);
        TallyKeeps(r, e);
      }
    }
    InvSafe(s);
  }

  // ---- what every outcome does, in flags and counters ----

  lemma HandledAlone(s: State, i: nat, good: bool)
    requires Sound(s) && i < |s.info| && s.info[i].parent < 0
    ensures var r := s.info[i];
      Handled(s, i, good) == s.(info := s.info[i :=
        if !good || r.kind == Other then r
        else if r.kind == Commit then r.(needReceipt := true)
        else r.(calls := r.calls + 1)])
  {
    hide GivenUp, Later, Noted;
    assert s.info[i := s.info[i]] == s.info;
  }

  /** An answer to a request without a commit: its callback hears of what it asked for. */
  lemma AnswerEffects(s: State, i: nat, good: bool)
    requires Sound(s) && i < |s.info| && s.info[i].parent < 0
    ensures var r := s.info[i].(processed := true, success := good);
      Deliver(s, i, if good then Accepted else Rejected) == s.(info := s.info[i :=
        if !good || r.kind == Other then r
        else if r.kind == Commit then r.(needReceipt := true)
        else r.(calls := r.calls + 1)])
  {
    hide Handled;
    HandledAlone(Processed(s, i), i, good);
  }

  /** An error of a request without a commit: only a query's callback hears of it. */
  lemma ErrorEffects(s: State, i: nat, o: Outcome)
    requires Sound(s) && i < |s.info| && s.info[i].parent < 0 && (o.NotFound? || o.Failed?)
    ensures var r := s.info[i].(processed := true);
      Deliver(s, i, o) == s.(info := s.info[i :=
        if r.kind == Query then r.(success := false, calls := r.calls + 1) else r])
  {}

  lemma HandledReceipt(s: State, i: nat, good: bool)
    requires Sound(s) && i < |s.info| && s.info[i].parent >= 0 && s.info[i].kind == GetReceipt
    ensures var p := s.info[s.info[i].parent];
      Handled(s, i, good) == s.(info := s.info[s.info[i].parent :=
        if good then p.(calls := p.calls + 1, needReceipt := false, processingReceipt := false)
        else p.(needReceipt := false, processingReceipt := false, silent := true)])
  {}

  lemma FailedReceiptIs(s: State, i: nat, notFound: bool)
    requires Sound(s) && i < |s.info| && s.info[i].parent >= 0
    ensures var p := s.info[s.info[i].parent];
      FailedReceipt(s, i, notFound) == s.(info := s.info[s.info[i].parent :=
        if !notFound then p.(calls := p.calls + 1, needReceipt := false)
        else if p.attempts + 1 < 10 then p.(attempts := p.attempts + 1, processingReceipt := false)
        else p.(attempts := p.attempts + 1, calls := p.calls + 1, needReceipt := false)])
  {}

  /**
   * The outcomes of a receipt request of a commit. Before the tenth failure "tx not found" calls nobody, and the
   * commit is ready to ask again; a receipt, any other error and the tenth failure are heard once, and end it.
   */
  lemma ReceiptEffects(s: State, i: nat, o: Outcome)
    requires Sound(s) && i < |s.info| && s.info[i].parent >= 0 && s.info[i].kind == GetReceipt
    ensures var r, p := s.info[i].(processed := true, success := o.Accepted?), s.info[s.info[i].parent];
      Deliver(s, i, o) == s.(info := s.info[i := r][s.info[i].parent :=
        match o
        case Accepted => p.(calls := p.calls + 1, needReceipt := false, processingReceipt := false)
        case Rejected => p.(needReceipt := false, processingReceipt := false, silent := true)
        case Failed => p.(calls := p.calls + 1, needReceipt := false)
        case NotFound =>
          if p.attempts + 1 < 10 then p.(attempts := p.attempts + 1, processingReceipt := false)
          else p.(attempts := p.attempts + 1, calls := p.calls + 1, needReceipt := false)])
  {
    hide Handled, FailedReceipt;
    HandledReceipt(Processed(s, i), i, o.Accepted?);
    FailedReceiptIs(Processed(s, i), i, o.NotFound?);
  }

  /** A new request is in the state its call leaves it in, with no flag set, at the end of the list. */
  lemma OpenEffects(s: State, kind: Kind, keepActive: bool, sent: bool)
    requires Sound(s)
    ensures var t := Open(s, kind, keepActive, sent);
      && t.live == s.live + [|s.info|] && |t.info| == |s.info| + 1 && t.info[..|s.info|] == s.info
      && var r := t.info[|s.info|];
         && r.kind == kind && r.keepActive == keepActive && r.sent == sent && r.parent == -1
         && !r.processed && !r.success && !r.needReceipt && !r.processingReceipt && r.attempts == 0 && r.calls == 0
  {}

  /** What the scan does to a commit that waits for its receipt to be asked for. */
  predicate Asked(r: Info, t: Info, sent: bool, made: nat) {
    if sent then t == r.(processingReceipt := true, fetches := r.fetches + 1, child := t.child) && t.child >= made
    else t == r.(processingReceipt := true, needReceipt := false, silent := true)
  }

  predicate Waits(r: Info) {
    r.processed && r.success && r.needReceipt && !r.processingReceipt
  }

  lemma FetchEffects(s: State, i: nat, fate: Fate)
    requires Sound(s) && i < |s.info|
    ensures var t := Fetch(s, i, fate);
      && |s.info| <= |t.info| && s.live <= t.live && (forall j :: j in t.live ==> j in s.live || j == |s.info|)
      && Asked(s.info[i], t.info[i], fate.Sent?, |s.info|)
      && forall j :: 0 <= j < |s.info| && j != i ==> t.info[j] == s.info[j]
  {}

  lemma PrefixHas(a: seq<nat>, b: seq<nat>, p: nat)
    requires a <= b && p in a
    ensures p in b
  {
    var k :| 0 <= k < |a| && a[k] == p;
    assert b[k] == p;
  }

  lemma FirstHas(s: State, p: nat)
    requires Sound(s) && p in s.live && Ready(s.info[p])
    ensures First(s, Ready) < |s.live|
  {
    var k :| 0 <= k < |s.live| && s.live[k] == p;
  }

  /** What a scan that ends in t has done to request p. */
  predicate Swept(s: State, t: State, p: nat, sent: bool)
    requires p < |s.info|
  {
    && |s.info| <= |t.info| && (p in s.live ==> p in t.live)
    && if p in s.live && Waits(s.info[p]) then Asked(s.info[p], t.info[p], sent, |s.info|)
       else t.info[p] == s.info[p]
  }

  /** A fetch for request i, and then a scan. */
  lemma ScannedBehind(s: State, i: nat, fate: Fate, t: State, u: State, p: nat, sent: bool, later: bool)
    requires Sound(s) && i < |s.info| && i in s.live && Waits(s.info[i]) && t == Fetch(s, i, fate) && p < |s.info|
    requires Swept(t, u, p, later) && if p == i then sent == fate.Sent? else later == sent
    ensures Swept(s, u, p, sent)
  {
    FetchEffects(s, i, fate);
    if p in s.live { PrefixHas(s.live, t.live, p); }
  }

  /** The scan asks for the receipt of every listed commit that waits for it, and changes no other request. */
  lemma {:induction false} ScanEffects(s: State, fate: (nat, nat) -> Fate, p: nat)
    requires Sound(s) && p < |s.info|
    ensures Swept(s, CheckReceipts(s, fate), p, fate(p, s.info[p].attempts).Sent?)
    decreases ReadyCount(s.info)
  {
    var k := First(s, Ready);
    if k < |s.live| {
      var i := s.live[k];
      var f := fate(i, s.info[i].attempts);
      var t := Fetch(s, i, f);
      FetchCounts(s, i, f);
      FetchEffects(s, i, f);
      hide Fetch, Swept;
      ScanEffects(t, fate, p);
      ScannedBehind(s, i, f, t, CheckReceipts(t, fate), p, fate(p, s.info[p].attempts).Sent?,
                    fate(p, t.info[p].attempts).Sent?);
    } else if p in s.live && Waits(s.info[p]) {
      FirstHas(s, p);
    }
  }

  /** Exactly the finished requests leave the list: processed, waiting for no receipt, and no open stream. */
  lemma {:induction false} ReleasedExactly(s: State, i: nat)
    requires Sound(s)
    ensures i in Release(s).live <==>
            i in s.live && !(s.info[i].processed && !s.info[i].needReceipt && !s.info[i].keepActive)
    decreases |s.live|
  {
    var k := First(s, Finished);
    if k == |s.live| {
      if i in s.live { var j :| 0 <= j < |s.live| && s.live[j] == i; }
    } else {
      var t := Dropped(s, k);
      ReleasedExactly(t, i);
      if i in t.live { var j :| 0 <= j < |t.live| && t.live[j] == i; }
      if i in s.live && i != s.live[k] { OthersStay(s.live, k, i); }
    }
  }

  /** Releasing leaves a commit alone that has a receipt request in flight. */
  lemma AskedAgain(t: State, v: State, p: nat)
    requires Sound(t) && Inv(v) && p < |t.info| <= |v.info| && Waits(t.info[p])
    requires Asked(t.info[p], v.info[p], true, |t.info|)
    ensures var u := Release(v); var c := v.info[p].child;
      u.info == v.info && |t.info| <= c < |v.info| && v.info[c].kind == GetReceipt && v.info[c].parent == p
      && InFlight(v, c) && c in u.live && p in u.live
  {
    var c := v.info[p].child;
    assert ChildInFlight(v, p) && Listed(v, p);
    assert ParentWaits(v, c) && Listed(v, c);
    ReleasedExactly(v, c);
    ReleasedExactly(v, p);
  }

  /**
   * "tx not found" before the tenth failure is tried again: the next round whose attempt is sent leaves a new
   * receipt request in flight for the commit, nobody has been called, and both are listed.
   */
  lemma TriedAgain(s: State, i: nat, fate: (nat, nat) -> Fate, p: nat, u: State)
    requires Inv(s) && i < |s.info| && InFlight(s, i) && s.info[i].parent == p
    requires s.info[p].attempts + 1 < 10 && fate(p, s.info[p].attempts + 1) == Sent
    requires u == Process(Deliver(s, i, NotFound), fate)
    ensures p < |u.info| && u.info[p].calls == s.info[p].calls == 0 && u.info[p].attempts == s.info[p].attempts + 1
    ensures var c := u.info[p].child;
      && |s.info| <= c < |u.info| && u.info[c].kind == GetReceipt && u.info[c].parent == p && InFlight(u, c)
      && c in u.live && p in u.live
  {
    assert ParentWaits(s, i) && KindOk(s.info[p]) && Listed(s, p);
    ReceiptEffects(s, i, NotFound);
    DeliverKeeps(s, i, NotFound);
    var t := Deliver(s, i, NotFound);
    hide Deliver;
    ScanEffects(t, fate, p);
    CheckReceiptsKeeps(t, fate);
    AskedAgain(t, CheckReceipts(t, fate), p);
  }

  // ---- streams, and requests that were never sent ----

  /** Number of good messages delivered to request i. */
  function Heard(es: seq<Event>, i: nat): nat {
    if |es| == 0 then 0
    else
      var e := es[|es| - 1];
      Heard(es[..|es| - 1], i)
      + (if e == Delivered(i, Accepted) && Legal(Run(es[..|es| - 1]), e) then 1 else 0)
  }

  /** The calls of a listener so far. */
  function CallsOf(s: State, i: nat): nat {
    if i < |s.info| && s.info[i].kind == Listener then s.info[i].calls else 0
  }

  lemma HandledCalls(s: State, i: nat, good: bool, j: nat)
    requires Sound(s) && i < |s.info| && j < |s.info| && s.info[j].kind == Listener && s.info[i].parent != j
    requires s.info[i].parent >= 0 ==> s.info[i].kind == GetReceipt
    ensures CallsOf(Handled(s, i, good), j) == CallsOf(s, j) + (if i == j && good then 1 else 0)
  {}

  lemma RespondCalls(s: State, i: nat, good: bool, j: nat)
    requires Inv(s) && i < |s.info| && j < |s.info| && s.info[j].kind == Listener
    ensures CallsOf(Respond(s, i, good), j) == CallsOf(s, j) + (if i == j && good then 1 else 0)
  {
    assert ParentWaits(s, i);
    hide Handled, Inv;
    HandledCalls(Processed(s, i), i, good, j);
  }

  lemma FailedCalls(s: State, i: nat, notFound: bool, j: nat)
    requires Sound(s) && i < |s.info| && j < |s.info| && s.info[j].kind == Listener && s.info[i].parent != j
    requires s.info[i].parent >= 0
    ensures CallsOf(FailedReceipt(s, i, notFound), j) == CallsOf(s, j)
  {}

  lemma ErrCalls(s: State, i: nat, notFound: bool, j: nat)
    requires Inv(s) && i < |s.info| && j < |s.info| && s.info[j].kind == Listener
    ensures CallsOf(Err(s, i, notFound), j) == CallsOf(s, j)
  {
    assert ParentWaits(s, i);
    hide FailedReceipt, Inv;
    if s.info[i].parent >= 0 { FailedCalls(Processed(s, i), i, notFound, j); }
  }

  lemma FetchCalls(s: State, i: nat, fate: Fate, j: nat)
    requires Sound(s) && i < |s.info| && s.info[i].kind != Listener
    ensures CallsOf(Fetch(s, i, fate), j) == CallsOf(s, j)
  {}

  lemma {:induction false} ScanCalls(s: State, fate: (nat, nat) -> Fate, j: nat)
    requires Inv(s)
    ensures CallsOf(CheckReceipts(s, fate), j) == CallsOf(s, j)
    decreases ReadyCount(s.info)
  {
    var k := First(s, Ready);
    if k < |s.live| {
      var i := s.live[k];
      var f := fate(i, s.info[i].attempts);
      assert KindOk(s.info[i]);
      FetchCounts(s, i, f);
      FetchKeeps(s, k, f);
      FetchCalls(s, i, f, j);
      ScanCalls(Fetch(s, i, f), fate, j);
    }
  }

  lemma ApplyCalls(s: State, e: Event, j: nat)
    requires Inv(s) && Legal(s, e)
    ensures j < |s.info| && s.info[j].kind == Listener ==>
            CallsOf(Apply(s, e), j) == CallsOf(s, j) + (if e == Delivered(j, Accepted) then 1 else 0)
    ensures j >= |s.info| ==> CallsOf(Apply(s, e), j) == 0
  {
    match e
    case Opened(_, _, _) =>
    case Delivered(i, o) =>
      if j < |s.info| && s.info[j].kind == Listener {
        RespondCalls(s, i, o.Accepted?, j);
        ErrCalls(s, i, o.NotFound?, j);
      }
    case Scanned(fate) => ScanCalls(s, fate, j);
  }

  lemma FetchKind(s: State, i: nat, fate: Fate, j: nat)
    requires Sound(s) && i < |s.info| && j < |s.info|
    ensures var t := Fetch(s, i, fate); j < |t.info| && t.info[j].kind == s.info[j].kind
  {}

  lemma {:induction false} ScanKind(s: State, fate: (nat, nat) -> Fate, j: nat)
    requires Sound(s) && j < |s.info|
    ensures var t := CheckReceipts(s, fate); j < |t.info| && t.info[j].kind == s.info[j].kind
    decreases ReadyCount(s.info)
  {
    var k := First(s, Ready);
    if k < |s.live| {
      var f := fate(s.live[k], s.info[s.live[k]].attempts);
      FetchCounts(s, s.live[k], f);
      FetchKind(s, s.live[k], f, j);
      hide Fetch;
      ScanKind(Fetch(s, s.live[k], f), fate, j);
    }
  }

  lemma KindStays(s: State, e: Event, j: nat)
    requires Sound(s) && Legal(s, e) && j < |s.info|
    ensures j < |Apply(s, e).info| && Apply(s, e).info[j].kind == s.info[j].kind
  {
    match e
    case Opened(_, _, _) =>
    case Delivered(i, o) =>
      RespondSame(s, i, o.Accepted?);
      ErrSame(s, i, o.NotFound?);
      assert SameRequest(Deliver(s, i, o).info[j], s.info[j]);
    case Scanned(fate) => ScanKind(s, fate, j);
  }

  lemma {:induction false} ScanGrows(s: State, fate: (nat, nat) -> Fate)
    requires Sound(s)
    ensures |s.info| <= |CheckReceipts(s, fate).info|
    decreases ReadyCount(s.info)
  {
    var k := First(s, Ready);
    if k < |s.live| {
      var f := fate(s.live[k], s.info[s.live[k]].attempts);
      FetchCounts(s, s.live[k], f);
      ScanGrows(Fetch(s, s.live[k], f), fate);
    }
  }

  lemma RunGrows(es: seq<Event>)
    requires |es| > 0
    ensures |Run(es[..|es| - 1]).info| <= |Run(es).info|
  {
    var r, e := Run(es[..|es| - 1]), es[|es| - 1];
    if Legal(r, e) && e.Scanned? && |r.live| > 0 { ScanGrows(r, e.fate); }
  }

  /** Nothing is delivered to a request before it is made. */
  lemma {:induction false} NotYetHeard(es: seq<Event>, i: nat)
    requires i >= |Run(es).info|
    ensures Heard(es, i) == 0
  {
    if |es| > 0 {
      RunGrows(es);
      NotYetHeard(es[..|es| - 1], i);
    }
  }

  /** A listener's callback is called exactly once for every good message. */
  lemma {:induction false} EveryMessageHeard(es: seq<Event>, i: nat)
    requires i < |Run(es).info| && Run(es).info[i].kind == Listener
    ensures Run(es).info[i].calls == Heard(es, i)
  {
    if |es| > 0 {
      var before, e := es[..|es| - 1], es[|es| - 1];
      var r := Run(before);
      Safe(before, r);
      if Legal(r, e) {
        ApplyCalls(r, e, i);
        if i < |r.info| { KindStays(r, e, i); }
      }
      if i < |r.info| { EveryMessageHeard(before, i); } else { NotYetHeard(before, i); }
    }
  }

  /** A listed request that was not handed to the transport. */
  predicate NeverSent(s: State, i: nat) {
    i < |s.info| && i in s.live && !s.info[i].sent && !s.info[i].processed
  }

  lemma {:induction false} ReleaseSkips(s: State, i: nat)
    requires Sound(s) && NeverSent(s, i)
    ensures NeverSent(Release(s), i)
    decreases |s.live|
  {
    var k := First(s, Finished);
    if k < |s.live| {
      OthersStay(s.live, k, i);
      ReleaseSkips(Dropped(s, k), i);
    }
  }

  lemma {:induction false} ScanSkips(s: State, fate: (nat, nat) -> Fate, i: nat)
    requires Sound(s) && NeverSent(s, i)
    ensures NeverSent(CheckReceipts(s, fate), i)
    decreases ReadyCount(s.info)
  {
    var k := First(s, Ready);
    if k < |s.live| {
      var j := s.live[k];
      var f := fate(j, s.info[j].attempts);
      var t := Fetch(s, j, f);
      FetchCounts(s, j, f);
      assert t.live == s.live || t.live == s.live + [|s.info|];
      assert NeverSent(t, i);
      ScanSkips(t, fate, i);
    }
  }

  lemma SentSame(s: State, t: State, i: nat)
    requires SameRequests(s, t) && i < |s.info|
    ensures t.info[i].sent == s.info[i].sent
  {}

  lemma SettledSkips(s: State, j: nat, lost: bool, i: nat)
    requires Sound(s) && j < |s.info| && i < |s.info|
    ensures Settled(s, j, lost).info[i].processed == s.info[i].processed
  {}

  lemma HandledSkips(s: State, j: nat, good: bool, i: nat)
    requires Sound(s) && j < |s.info| && i < |s.info|
    ensures Handled(s, j, good).info[i].processed == s.info[i].processed
  {
    hide Settled;
    SettledSkips(if good then Called(s, j) else s, j, !good, i);
  }

  lemma RespondSkips(s: State, j: nat, good: bool, i: nat)
    requires Sound(s) && j < |s.info| && i < |s.info| && i != j
    ensures Respond(s, j, good).info[i].processed == s.info[i].processed
  {
    hide Handled;
    HandledSkips(Processed(s, j), j, good, i);
  }

  lemma FailedSkips(s: State, j: nat, notFound: bool, i: nat)
    requires Sound(s) && j < |s.info| && i < |s.info| && i != j
    ensures FailedReceipt(s, j, notFound).info[i].processed == s.info[i].processed
  {}

  lemma ErrSkips(s: State, j: nat, notFound: bool, i: nat)
    requires Sound(s) && j < |s.info| && i < |s.info| && i != j
    ensures Err(s, j, notFound).info[i].processed == s.info[i].processed
  {
    hide FailedReceipt;
    FailedSkips(Processed(s, j), j, notFound, i);
  }

  lemma DeliverSkips(s: State, i: nat, o: Outcome, j: nat)
    requires Sound(s) && j < |s.info| && Expects(s, j) && NeverSent(s, i)
    ensures NeverSent(Deliver(s, j, o), i)
  {
    hide Respond, Err, SameRequest;
    RespondSkips(s, j, o.Accepted?, i);
    RespondSame(s, j, o.Accepted?);
    ErrSkips(s, j, o.NotFound?, i);
    ErrSame(s, j, o.NotFound?);
    SentSame(s, Deliver(s, j, o), i);
  }

  /** A request that could not be sent is never processed and never released. */
  lemma UnsentStays(s: State, e: Event, i: nat)
    requires Sound(s) && Legal(s, e) && NeverSent(s, i)
    ensures NeverSent(Apply(s, e), i)
  {
    match e
    case Opened(kind, keepActive, sent) =>
      assert Apply(s, e).live == s.live + [|s.info|];
    case Delivered(j, o) => DeliverSkips(s, i, o, j);
    case Scanned(fate) =>
      ScanSkips(s, fate, i);
      ReleaseSkips(CheckReceipts(s, fate), i);
  }

  /** A user's call that cannot be sent makes such a request. */
  lemma UnsentOpened(s: State, kind: Kind, keepActive: bool)
    requires Sound(s)
    ensures NeverSent(Open(s, kind, keepActive, false), |s.info|)
  {
    var t := Open(s, kind, keepActive, false);
    assert t.live[|s.live|] == |s.info|;
  }

  lemma {:induction false} ReleaseLists(s: State, i: nat)
    requires Sound(s) && i in Release(s).live
    ensures i in s.live
    decreases |s.live|
  {
    var k := First(s, Finished);
    if k < |s.live| { ReleaseLists(Dropped(s, k), i); }
  }

  /** After processing, every listed commit that wants a receipt has one receipt request in flight. */
  lemma NothingForgotten(s: State, fate: (nat, nat) -> Fate, i: nat)
    requires Inv(s) && |s.live| > 0
    requires var t := Process(s, fate); i in t.live && i < |t.info| && t.info[i].needReceipt
    ensures var t := Process(s, fate);
            0 <= t.info[i].child < |t.info| && t.info[t.info[i].child].parent == i && InFlight(t, t.info[i].child)
  {
    var u := CheckReceipts(s, fate);
    var t := Release(u);
    CheckReceiptsKeeps(s, fate);
    ReleaseKeeps(u);
    ReleaseLists(u, i);
    var k :| 0 <= k < |u.live| && u.live[k] == i;
    assert !Ready(u.info[u.live[k]]);
    assert KindOk(t.info[i]) && ChildInFlight(t, i);
  }
}
