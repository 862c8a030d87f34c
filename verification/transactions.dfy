/** KSecretD: the queue of requests to open a wallet or change its password, and the promises made to
    those who ask. While a dialog is shown the event loop goes on, so requests arrive and the queue is
    called upon to be processed in the middle of its processing. */
module Transactions {
  import opened Options

  datatype Kind = Open | ChangePassword
  datatype Ask = Ask(kind: Kind, wallet: string, wId: int)

  // A request in the queue. Promises are numbered as they are made.
  datatype Request = Request(ask: Ask, promise: nat)

  // What a promise has been given. Only its first result counts, and none is taken once it has finished.
  datatype Promise = Promise(results: seq<int>, finished: bool)

  function AddResult(p: Promise, value: int): Promise
  {
    if p.finished then p else p.(results := p.results + [value])
  }

  function Finish(p: Promise): Promise
  {
    p.(finished := true)
  }

  // What happened to a request: the result of its own turn, and how many requests there were at the end of it.
  datatype Turn = Turn(result: int, asked: nat)

  // Request i was waiting when the open of j, of the same wallet for the same window, failed.
  predicate FailedBefore(asks: seq<Ask>, turns: seq<Turn>, i: nat, j: nat)
    requires i < |asks| && j < i && j < |turns|
  {
    && asks[i].kind.Open? && asks[j] == asks[i]
    && turns[j].result < 0 && i < turns[j].asked
  }

  ghost predicate Refused(asks: seq<Ask>, turns: seq<Turn>, i: nat)
    requires i < |asks|
  {
    exists j: nat :: j < i && j < |turns| && FailedBefore(asks, turns, i, j)
  }

  // What request i is told by now.
  ghost function Told(asks: seq<Ask>, turns: seq<Turn>, i: nat): Promise
    requires i < |asks|
  {
    if Refused(asks, turns, i) then Promise([-1], true)
    else if i < |turns| then Promise([if asks[i].kind.Open? then turns[i].result else 0], true)
    else Promise([], false)
  }

  // When all have had their turns: an open that waited when the same open failed is told -1, any other
  // one the result of its own turn, and a change of password 0.
  lemma ToldMeans(asks: seq<Ask>, turns: seq<Turn>, i: nat)
    requires i < |asks| == |turns|
    ensures
      var refused := asks[i].kind.Open? && exists j :: 0 <= j < i && asks[j] == asks[i] && turns[j].result < 0 && i < turns[j].asked;
      Told(asks, turns, i) == Promise([if refused then -1 else if asks[i].kind.Open? then turns[i].result else 0], true)
  {
    if asks[i].kind.Open? && exists j :: 0 <= j < i && asks[j] == asks[i] && turns[j].result < 0 && i < turns[j].asked {
      var j: nat :| j < i && asks[j] == asks[i] && turns[j].result < 0 && i < turns[j].asked;
      assert FailedBefore(asks, turns, i, j);
    }
  }

  class Queue {
    var transactions: seq<Request>
    var promises: seq<Promise>
    var processing: bool
    // every request so far, and the turns of those that have had theirs
    ghost var asks: seq<Ask>
    ghost var turns: seq<Turn>
    // how many requests have left the queue; one more than the turns while one is being handled
    ghost var taken: nat

    // The queue holds the requests that have not left it, in the order in which they came, and every
    // promise says what it should.
    ghost predicate Valid()
      reads this
    {
      && |turns| <= taken <= |asks| == |promises| && |transactions| == |asks| - taken
      && (forall i :: 0 <= i < |transactions| ==> transactions[i] == Request(asks[taken + i], taken + i))
      && (forall i :: 0 <= i < |promises| ==> promises[i] == Told(asks, turns, i))
      && (forall j :: 0 <= j < |turns| ==> turns[j].asked <= |asks|)
    }

    constructor ()
      ensures Valid() && asks == [] && turns == [] && taken == 0 && transactions == [] && !processing
    {
      transactions, promises, processing, asks, turns, taken := [], [], false, [], [], 0;
    }

    // open() and internalChangePassword(); ready is the answer when nothing is queued.
    method Push(ask: Ask, enabled: bool) returns (ready: Option<int>)
      requires Valid()
      modifies this`transactions, this`promises, this`asks
      ensures Valid()
      ensures ready == if ask.kind.Open? && !enabled then Some(-1) else None
      ensures asks == if ready.None? then old(asks) + [ask] else old(asks)
    {
      if ask.kind.Open? && !enabled {
        return Some(-1);
      }
      transactions := transactions + [Request(ask, |promises|)];
      promises := promises + [Promise([], false)];
      asks := asks + [ask];
      ready := None;
      PushTold(old(asks), turns, ask);
    }

    // The event loop during a dialog: requests arrive, and each has the queue processed once more.
    method EventLoop(arrivals: seq<Ask>)
      requires Valid() && processing
      modifies this
      decreases 1
      ensures Valid() && processing && turns == old(turns) && taken == old(taken) && asks == old(asks) + arrivals
    {
      for i := 0 to |arrivals|
        invariant Valid() && processing && turns == old(turns) && taken == old(taken) && asks == old(asks) + arrivals[..i]
      {
        var ready := Push(arrivals[i], true);
        ProcessTransactions([], k => 0);
      }
    }

    // processTransactions(). The n-th turn from here brings the arrivals n and has the result n. A call
    // in the middle of another does nothing; otherwise the queue ends empty.
    method ProcessTransactions(arrivals: seq<seq<Ask>>, results: nat -> int)
      requires Valid() && (processing || taken == |turns|)
      modifies this
      decreases if processing then 0 else 3
      ensures Valid() && processing == old(processing)
      ensures processing ==> transactions == old(transactions) && promises == old(promises)
                             && asks == old(asks) && turns == old(turns) && taken == old(taken)
      ensures !processing ==> transactions == [] && taken == |turns| == |asks|
      ensures !processing ==> forall i :: 0 <= i < |promises| ==>
        var refused := asks[i].kind.Open? && exists j :: 0 <= j < i && asks[j] == asks[i] && turns[j].result < 0 && i < turns[j].asked;
        promises[i] == Promise([if refused then -1 else if asks[i].kind.Open? then turns[i].result else 0], true)
      ensures old(turns) <= turns && old(asks) <= asks
      ensures forall i :: |old(turns)| <= i < |turns| && asks[i].kind.Open? ==> turns[i].result == results(i - |old(turns)|)
    {
      hide Told;
      if processing {
        return;
      }
      processing := true;
      var n := 0;
      while transactions != []
        invariant Valid() && processing && taken == |turns|
        invariant old(turns) <= turns && old(asks) <= asks && |turns| == |old(turns)| + n
        invariant forall i :: |old(turns)| <= i < |turns| && asks[i].kind.Open? ==> turns[i].result == results(i - |old(turns)|)
        decreases if n < |arrivals| then |arrivals| - n else 0, |transactions|
      {
        TakeTurn(if n < |arrivals| then arrivals[n] else [], results(n));
        n := n + 1;
      }
      processing := false;
      forall i | 0 <= i < |promises|
        ensures
          var refused := asks[i].kind.Open? && exists j :: 0 <= j < i && asks[j] == asks[i] && turns[j].result < 0 && i < turns[j].asked;
          promises[i] == Promise([if refused then -1 else if asks[i].kind.Open? then turns[i].result else 0], true)
      {
        ToldMeans(asks, turns, i);
      }
    }

    // One turn of the loop; result is what doTransactionOpen() returns.
    method TakeTurn(arrivals: seq<Ask>, result: int)
      requires Valid() && processing && transactions != [] && taken == |turns|
      modifies this
      decreases 2
      ensures Valid() && processing && taken == |turns| == |old(turns)| + 1
      ensures asks == old(asks) + arrivals && turns == old(turns) + [Turn(result, |asks|)]
      ensures |transactions| == |old(transactions)| - 1 + |arrivals|
    {
      hide Told, Refused, AddResult, Finish;
      var cur := transactions[0];
      transactions := transactions[1..];
      taken := taken + 1;
      EventLoop(arrivals);
      Settle(cur, result);
    }

    // The request is told its result.
    method Settle(cur: Request, result: int)
      requires Valid() && taken == |turns| + 1 && cur == Request(asks[|turns|], |turns|)
      modifies this`promises, this`turns
      ensures Valid() && turns == old(turns) + [Turn(result, |asks|)]
    {
      hide Told, Refused, AddResult, Finish;
      match cur.ask.kind {
        case Open =>
          if result < 0 {
            StrikeSame(cur.ask);
          }
          Answer(cur.promise, result);
        case ChangePassword =>
          Answer(cur.promise, 0);
      }
      turns := turns + [Turn(result, |asks|)];
      TurnTold(asks, old(turns), result);
    }

    // Everyone else who waits for the same wallet with the same window is refused.
    method StrikeSame(ask: Ask)
      requires |promises| == |asks| && taken + |transactions| == |asks|
      requires forall i :: 0 <= i < |transactions| ==> transactions[i] == Request(asks[taken + i], taken + i)
      requires ask.kind.Open?
      modifies this`promises
      ensures |promises| == |asks|
      ensures forall i :: 0 <= i < |asks| ==>
        promises[i] == if taken <= i && asks[i] == ask then Finish(AddResult(old(promises)[i], -1)) else old(promises)[i]
    {
      for k := 0 to |transactions|
        invariant |promises| == |asks|
        invariant forall i :: 0 <= i < |asks| ==>
          promises[i] == if taken <= i < taken + k && asks[i] == ask then Finish(AddResult(old(promises)[i], -1)) else old(promises)[i]
      {
        var x := transactions[k];
        if x.ask.kind.Open? && x.ask.wallet == ask.wallet && x.ask.wId == ask.wId {
          Answer(x.promise, -1);
        }
      }
    }

    method Answer(promise: nat, value: int)
      requires promise < |promises|
      modifies this`promises
      ensures promises == old(promises)[promise := Finish(AddResult(old(promises)[promise], value))]
    {
      var p := AddResult(promises[promise], value);
      promises := promises[promise := Finish(p)];
    }
  }

  // What a promise has once finished with, it keeps, whoever asks and whoever has a turn later; so
  // whoever waited when the open failed is told -1, although the request still has its turn.
  lemma FinishedForGood(asks: seq<Ask>, turns: seq<Turn>, asks': seq<Ask>, turns': seq<Turn>, i: nat)
    requires asks <= asks' && turns <= turns' && i < |asks| && Told(asks, turns, i).finished
    ensures Told(asks', turns', i) == Told(asks, turns, i)
  {
    forall j: nat | j < i && j < |turns| ensures FailedBefore(asks', turns', i, j) == FailedBefore(asks, turns, i, j) {
    }
    if Refused(asks, turns, i) {
      var j: nat :| j < i && j < |turns| && FailedBefore(asks, turns, i, j);
      assert FailedBefore(asks', turns', i, j);
    }
    if Refused(asks', turns', i) && i < |turns| {
      var j: nat :| j < i && j < |turns'| && FailedBefore(asks', turns', i, j);
      assert FailedBefore(asks, turns, i, j);
    }
  }

  // What one more turn changes: its own promise, and those of the same request while it waits.
  lemma TurnTold(asks: seq<Ask>, turns: seq<Turn>, result: int)
    requires |turns| < |asks| && forall j :: 0 <= j < |turns| ==> turns[j].asked <= |asks|
    ensures
      var turns' := turns + [Turn(result, |asks|)];
      var k := |turns|;
      && (forall i :: 0 <= i < k ==> Told(asks, turns', i) == Told(asks, turns, i))
      && Told(asks, turns', k) == Finish(AddResult(Told(asks, turns, k), if asks[k].kind.Open? then result else 0))
      && (forall i :: k < i < |asks| ==>
            Told(asks, turns', i) ==
              if asks[k].kind.Open? && result < 0 && asks[i] == asks[k] then Finish(AddResult(Told(asks, turns, i), -1))
              else Told(asks, turns, i))
  {
    var turns' := turns + [Turn(result, |asks|)];
    var k := |turns|;
    forall i | 0 <= i < |asks|
      ensures Refused(asks, turns', i) <==>
        Refused(asks, turns, i) || (k < i && asks[k].kind.Open? && result < 0 && asks[i] == asks[k])
    {
      RefusedOneMore(asks, turns, result, i);
    }
  }

  lemma RefusedOneMore(asks: seq<Ask>, turns: seq<Turn>, result: int, i: nat)
    requires |turns| < |asks| && i < |asks|
    ensures
      var turns' := turns + [Turn(result, |asks|)];
      Refused(asks, turns', i) <==>
        Refused(asks, turns, i) || (|turns| < i && asks[|turns|].kind.Open? && result < 0 && asks[i] == asks[|turns|])
  {
    var turns' := turns + [Turn(result, |asks|)];
    forall j: nat | j < i && j < |turns| ensures FailedBefore(asks, turns', i, j) == FailedBefore(asks, turns, i, j) {
    }
    if |turns| < i && asks[|turns|].kind.Open? && result < 0 && asks[i] == asks[|turns|] {
      assert FailedBefore(asks, turns', i, |turns|);
    }
    if Refused(asks, turns, i) {
      var j: nat :| j < i && j < |turns| && FailedBefore(asks, turns, i, j);
      assert FailedBefore(asks, turns', i, j);
    }
  }

  lemma PushTold(asks: seq<Ask>, turns: seq<Turn>, ask: Ask)
    requires |turns| <= |asks| && forall j :: 0 <= j < |turns| ==> turns[j].asked <= |asks|
    ensures forall i :: 0 <= i < |asks| ==> Told(asks + [ask], turns, i) == Told(asks, turns, i)
    ensures Told(asks + [ask], turns, |asks|) == Promise([], false)
  {
    forall i | 0 <= i < |asks| ensures Refused(asks + [ask], turns, i) <==> Refused(asks, turns, i) {
      forall j: nat | j < i && j < |turns|
        ensures FailedBefore(asks + [ask], turns, i, j) == FailedBefore(asks, turns, i, j)
      {
      }
      if Refused(asks, turns, i) {
        var j: nat :| j < i && j < |turns| && FailedBefore(asks, turns, i, j);
        assert FailedBefore(asks + [ask], turns, i, j);
      }
    }
  }
}
