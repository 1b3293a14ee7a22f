/**
  The accounts-created event bus: every publish is offered to every subscriber's bounded queue and
  dropped for those that have no room.
 */
module EventBus {
  import opened Decimal

  const BUFFER_SIZE := 64

  datatype AccountsCreated = AccountsCreated(connectionId: int, provider: string, sourceId: int)

  /** A subscriber as the bus sees it; `open` until the receiver is dropped. */
  datatype Port = Port(name: string, queue: seq<AccountsCreated>, open: bool)

  predicate HasRoom(p: Port) {
    p.open && |p.queue| < BUFFER_SIZE
  }

  function Offered(p: Port, e: AccountsCreated): Port {
    if HasRoom(p) then p.(queue := p.queue + [e]) else p
  }

  function Taken(p: Port): Port {
    if p.queue == [] then p else p.(queue := p.queue[1..])
  }

  /** Dropping a receiver discards what it has not received. */
  function Shut(p: Port): Port {
    p.(queue := [], open := false)
  }

  function OfferedToAll(ports: seq<Port>, e: AccountsCreated): (r: seq<Port>)
    ensures |r| == |ports| && forall i :: 0 <= i < |ports| ==> r[i] == Offered(ports[i], e)
  {
    seq(|ports|, i requires 0 <= i < |ports| => Offered(ports[i], e))
  }

  /** The subscribers that a publish is dropped for, in subscription order. */
  function WithoutRoom(ports: seq<Port>): seq<string> {
    if ports == [] then []
    else
      var before := WithoutRoom(ports[..|ports| - 1]);
      var last := ports[|ports| - 1];
      if HasRoom(last) then before else before + [last.name]
  }

  lemma WithoutRoomSnoc(ports: seq<Port>, i: nat)
    requires i < |ports|
    ensures WithoutRoom(ports[..i + 1]) == WithoutRoom(ports[..i]) + if HasRoom(ports[i]) then [] else [ports[i].name]
  {
    assert ports[..i + 1][..i] == ports[..i];
  }

  /** The two ends of a bounded channel. */
  class Channel {
    var queue: seq<AccountsCreated>
    var open: bool

    constructor ()
      ensures queue == [] && open
    {
      queue := [];
      open := true;
    }

    function View(name: string): Port
      reads this
    {
      Port(name, queue, open)
    }

    method TrySend(e: AccountsCreated) returns (ok: bool)
      modifies this
      ensures ok == old(open && |queue| < BUFFER_SIZE)
      ensures open == old(open) && queue == if ok then old(queue) + [e] else old(queue)
    {
      ok := open && |queue| < BUFFER_SIZE;
      if ok {
        queue := queue + [e];
      }
    }

    method TryReceive() returns (r: Option<AccountsCreated>)
      modifies this
      ensures r == if old(queue) == [] then None else Some(old(queue)[0])
      ensures open == old(open) && queue == if old(queue) == [] then [] else old(queue)[1..]
    {
      if queue == [] {
        return None;
      }
      r := Some(queue[0]);
      queue := queue[1..];
    }

    method Close()
      modifies this
      ensures queue == [] && !open
    {
      queue := [];
      open := false;
    }
  }

  class EventBus {
    var subscribers: seq<(string, Channel)>

    ghost predicate Valid()
      reads this
    {
      forall i, j :: 0 <= i < j < |subscribers| ==> subscribers[i].1 != subscribers[j].1
    }

    ghost function Channels(): set<Channel>
      reads this
    {
      set i | 0 <= i < |subscribers| :: subscribers[i].1
    }

    ghost function View(): (ports: seq<Port>)
      reads this, Channels()
      ensures |ports| == |subscribers|
    {
      seq(|subscribers|, i requires 0 <= i < |subscribers|
                          reads this, if 0 <= i < |subscribers| then {subscribers[i].1} else {} =>
        subscribers[i].1.View(subscribers[i].0))
    }

    constructor ()
      ensures Valid() && subscribers == [] && View() == []
    {
      subscribers := [];
    }

    method RegisterSubscriber(name: string) returns (receiver: Channel)
      requires Valid()
      modifies this
      ensures Valid() && fresh(receiver)
      ensures subscribers == old(subscribers) + [(name, receiver)]
      ensures View() == Apply(old(View()), Register(name))
    {
      receiver := new Channel();
      ghost var before := View();
      subscribers := subscribers + [(name, receiver)];
      assert View()[..|before|] == before;
    }

    method Publish(e: AccountsCreated) returns (warned: seq<string>)
      requires Valid()
      modifies Channels()
      ensures Valid()
      ensures View() == Apply(old(View()), Op.Publish(e))
      ensures warned == WithoutRoom(old(View()))
    {
      ghost var before := View();
      warned := [];
      for i := 0 to |subscribers|
        invariant forall j :: 0 <= j < i ==> subscribers[j].1.View(subscribers[j].0) == Offered(before[j], e)
        invariant forall j :: i <= j < |subscribers| ==> subscribers[j].1.View(subscribers[j].0) == before[j]
        invariant warned == WithoutRoom(before[..i])
      {
        var (name, sender) := subscribers[i];
        assert forall j :: 0 <= j < |subscribers| && j != i ==> subscribers[j].1 != sender;
        WithoutRoomSnoc(before, i);
        var ok := sender.TrySend(e);
        if !ok {
          warned := warned + [name];
        }
      }
      assert before[..|before|] == before;
    }
  }

  // ----- Runs of registrations, publishes, receives and drops

  datatype Op = Register(name: string) | Publish(event: AccountsCreated) | Receive(who: nat) | Drop(who: nat)

  function Apply(ports: seq<Port>, op: Op): seq<Port> {
    match op
    case Register(name) => ports + [Port(name, [], true)]
    case Publish(e) => OfferedToAll(ports, e)
    case Receive(i) => if i < |ports| then ports[i := Taken(ports[i])] else ports
    case Drop(i) => if i < |ports| then ports[i := Shut(ports[i])] else ports
  }

  /** A receiver takes its next event: the bus sees one queue change. */
  method ReceiveNext(bus: EventBus, i: nat) returns (r: Option<AccountsCreated>)
    requires bus.Valid() && i < |bus.subscribers|
    modifies bus.subscribers[i].1
    ensures r == if old(bus.View())[i].queue == [] then None else Some(old(bus.View())[i].queue[0])
    ensures bus.View() == Apply(old(bus.View()), Receive(i))
  {
    r := bus.subscribers[i].1.TryReceive();
  }

  /** A receiver is dropped: its queue is gone and every later offer is refused. */
  method DropReceiver(bus: EventBus, i: nat)
    requires bus.Valid() && i < |bus.subscribers|
    modifies bus.subscribers[i].1
    ensures bus.View() == Apply(old(bus.View()), Drop(i))
  {
    bus.subscribers[i].1.Close();
  }

  function Run(ops: seq<Op>): seq<Port> {
    if ops == [] then [] else Apply(Run(ops[..|ops| - 1]), ops[|ops| - 1])
  }

  /** What subscriber `i` has received, oldest first. */
  function Received(ops: seq<Op>, i: nat): seq<AccountsCreated> {
    if ops == [] then []
    else
      var init, last := ops[..|ops| - 1], ops[|ops| - 1];
      if last == Receive(i) && i < |Run(init)| && Run(init)[i].queue != []
      then Received(init, i) + [Run(init)[i].queue[0]]
      else Received(init, i)
  }

  /** The events published since subscriber `i` registered, in the one order of publication. */
  function Published(ops: seq<Op>, i: nat): seq<AccountsCreated> {
    if ops == [] then []
    else
      var init, last := ops[..|ops| - 1], ops[|ops| - 1];
      if last.Publish? && i < |Run(init)| then Published(init, i) + [last.event] else Published(init, i)
  }

  /** Those of them that found the queue open and not full. */
  function Accepted(ops: seq<Op>, i: nat): seq<AccountsCreated> {
    if ops == [] then []
    else
      var init, last := ops[..|ops| - 1], ops[|ops| - 1];
      if last.Publish? && i < |Run(init)| && HasRoom(Run(init)[i])
      then Accepted(init, i) + [last.event]
      else Accepted(init, i)
  }

  ghost predicate IsSubsequence<T>(a: seq<T>, b: seq<T>) {
    a == [] ||
    (b != [] &&
     (IsSubsequence(a, b[..|b| - 1]) ||
      (a[|a| - 1] == b[|b| - 1] && IsSubsequence(a[..|a| - 1], b[..|b| - 1]))))
  }

  lemma SubsequenceSnoc<T>(a: seq<T>, b: seq<T>, x: T)
    requires IsSubsequence(a, b)
    ensures IsSubsequence(a, b + [x]) && IsSubsequence(a + [x], b + [x])
  {
    assert (b + [x])[..|b|] == b && (a + [x])[..|a|] == a;
  }

  lemma {:induction false} NothingBeforeRegistration(ops: seq<Op>, i: nat)
    requires i >= |Run(ops)|
    ensures Received(ops, i) == Accepted(ops, i) == Published(ops, i) == []
  {
    if ops != [] {
      NothingBeforeRegistration(ops[..|ops| - 1], i);
    }
  }

  ghost predicate Delivered(port: Port, received: seq<AccountsCreated>, accepted: seq<AccountsCreated>) {
    && |port.queue| <= 64
    && received + port.queue <= accepted
    && if port.open then received + port.queue == accepted else port.queue == []
  }

  lemma DeliveredNext(port: Port, received: seq<AccountsCreated>, accepted: seq<AccountsCreated>, e: AccountsCreated)
    requires Delivered(port, received, accepted)
    ensures Delivered(Offered(port, e), received, if HasRoom(port) then accepted + [e] else accepted)
    ensures Delivered(Taken(port), if port.queue == [] then received else received + [port.queue[0]], accepted)
    ensures Delivered(Shut(port), received, accepted)
  {
    assert received + (port.queue + [e]) == received + port.queue + [e];
    if port.queue != [] {
      assert received + [port.queue[0]] + port.queue[1..] == received + port.queue;
    }
  }

  /**
    Exactly the accepted events reach an open subscriber, in publication order, first those received
    and then those queued; after a drop the received ones remain. A refusal by an open queue means
    that it holds 64 events not yet received.
   */
  lemma {:induction false} DeliveredExactly(ops: seq<Op>, i: nat)
    requires i < |Run(ops)|
    ensures var port := Run(ops)[i];
            && |port.queue| <= 64
            && Received(ops, i) + port.queue <= Accepted(ops, i)
            && (port.open ==> Received(ops, i) + port.queue == Accepted(ops, i))
            && (port.open && !HasRoom(port) ==> |Accepted(ops, i)| == |Received(ops, i)| + 64)
            && (!port.open ==> port.queue == [])
  {
    var init, last := ops[..|ops| - 1], ops[|ops| - 1];
    if i == |Run(init)| {
      NothingBeforeRegistration(init, i);
    } else {
      DeliveredExactly(init, i);
      var e := if last.Publish? then last.event else AccountsCreated(0, "", 0);
      DeliveredNext(Run(init)[i], Received(init, i), Accepted(init, i), e);
      assert Delivered(Run(ops)[i], Received(ops, i), Accepted(ops, i));
    }
  }

  /** What is accepted was published since registration, and in that order. */
  lemma {:induction false} AcceptedInOrder(ops: seq<Op>, i: nat)
    ensures IsSubsequence(Accepted(ops, i), Published(ops, i))
  {
    if ops != [] {
      var init, last := ops[..|ops| - 1], ops[|ops| - 1];
      AcceptedInOrder(init, i);
      if last.Publish? {
        SubsequenceSnoc(Accepted(init, i), Published(init, i), last.event);
      }
    }
  }

  // ----- Refusals and warnings

  /** The receiver of subscriber `i` has been dropped. */
  ghost predicate Dropped(ops: seq<Op>, i: nat) {
    exists n :: 0 <= n < |ops| && ops[n] == Drop(i) && i < |Run(ops[..n])|
  }

  lemma DroppedSnoc(ops: seq<Op>, op: Op, i: nat)
    ensures Dropped(ops + [op], i) <==> Dropped(ops, i) || (op == Drop(i) && i < |Run(ops)|)
  {
    var all := ops + [op];
    assert all[..|ops|] == ops;
    if n :| 0 <= n < |ops| && ops[n] == Drop(i) && i < |Run(ops[..n])| {
      assert all[n] == Drop(i) && all[..n] == ops[..n];
    }
    if n :| 0 <= n < |all| && all[n] == Drop(i) && i < |Run(all[..n])| {
      assert n < |ops| ==> ops[n] == Drop(i) && all[..n] == ops[..n];
    }
    if op == Drop(i) && i < |Run(ops)| {
      assert all[|ops|] == Drop(i);
    }
  }

  /** A queue is open until its receiver is dropped, and closed and empty from then on. */
  lemma {:induction false} OpenUntilDropped(ops: seq<Op>, i: nat)
    requires i < |Run(ops)|
    ensures Run(ops)[i].open <==> !Dropped(ops, i)
    ensures Dropped(ops, i) ==> Run(ops)[i].queue == []
  {
    var init, last := ops[..|ops| - 1], ops[|ops| - 1];
    assert ops == init + [last];
    DroppedSnoc(init, last, i);
    if i < |Run(init)| {
      OpenUntilDropped(init, i);
    } else {
      NothingDroppedBeforeRegistration(init, i);
    }
  }

  lemma {:induction false} NothingDroppedBeforeRegistration(ops: seq<Op>, i: nat)
    requires i >= |Run(ops)|
    ensures !Dropped(ops, i)
  {
    if ops != [] {
      var init, last := ops[..|ops| - 1], ops[|ops| - 1];
      NothingDroppedBeforeRegistration(init, i);
      assert ops == init + [last];
      DroppedSnoc(init, last, i);
    }
  }

  /** A publish is refused exactly by the dropped subscribers and by those with 64 events not yet received. */
  lemma RefusedIff(ops: seq<Op>, e: AccountsCreated, i: nat)
    requires i < |Run(ops)|
    ensures Refuses(ops, e, i) <==> Dropped(ops, i) || |Accepted(ops, i)| == |Received(ops, i)| + 64
  {
    OpenUntilDropped(ops, i);
    DeliveredExactly(ops, i);
    assert (ops + [Op.Publish(e)])[..|ops|] == ops;
  }

  ghost predicate Refuses(ops: seq<Op>, e: AccountsCreated, i: nat) {
    Accepted(ops + [Op.Publish(e)], i) == Accepted(ops, i)
  }
  /** How many of the first `k` are marked. */
  ghost function Rank(marked: seq<bool>, k: nat): nat
    requires k <= |marked|
  {
    if k == 0 then 0 else Rank(marked, k - 1) + if marked[k - 1] then 1 else 0
  }

  /** The names of the marked ports, in order, and no others. */
  ghost predicate ListsMarked(names: seq<string>, ports: seq<Port>, marked: seq<bool>) {
    && |marked| == |ports| && |names| == Rank(marked, |marked|)
    && forall i :: 0 <= i < |ports| && marked[i] ==>
         Rank(marked, i) < |names| && names[Rank(marked, i)] == ports[i].name
  }

  lemma {:induction false} RankBefore(marked: seq<bool>, more: seq<bool>, k: nat)
    requires k <= |marked|
    ensures Rank(marked + more, k) == Rank(marked, k)
  {
    if k > 0 {
      RankBefore(marked, more, k - 1);
    }
  }

  lemma MarkOneMore(names: seq<string>, ports: seq<Port>, marked: seq<bool>, port: Port, mark: bool)
    requires ListsMarked(names, ports, marked)
    ensures ListsMarked(names + if mark then [port.name] else [], ports + [port], marked + [mark])
  {
    RankBefore(marked, [mark], |marked|);
    forall i | 0 <= i < |ports| + 1 && (marked + [mark])[i]
      ensures Rank(marked + [mark], i) < |names + if mark then [port.name] else []|
      ensures (names + if mark then [port.name] else [])[Rank(marked + [mark], i)] == (ports + [port])[i].name
    {
      RankBefore(marked, [mark], i);
    }
  }

  lemma {:induction false} WithoutRoomLists(ports: seq<Port>, marked: seq<bool>)
    requires |marked| == |ports| && forall i :: 0 <= i < |ports| ==> marked[i] == !HasRoom(ports[i])
    ensures ListsMarked(WithoutRoom(ports), ports, marked)
  {
    if ports != [] {
      var last := |ports| - 1;
      WithoutRoomLists(ports[..last], marked[..last]);
      MarkOneMore(WithoutRoom(ports[..last]), ports[..last], marked[..last], ports[last], marked[last]);
      assert ports == ports[..last] + [ports[last]] && marked == marked[..last] + [marked[last]];
    }
  }

  lemma RefusedWithoutRoom(ops: seq<Op>, e: AccountsCreated, i: nat)
    requires i < |Run(ops)|
    ensures Refuses(ops, e, i) <==> !HasRoom(Run(ops)[i])
  {
    assert (ops + [Op.Publish(e)])[..|ops|] == ops;
  }

  /** The warnings of a publish name exactly the subscribers that refuse it, in the order of subscription. */
  lemma WarnedAreRefused(ops: seq<Op>, e: AccountsCreated, refuses: seq<bool>)
    requires |refuses| == |Run(ops)|
    requires forall i :: 0 <= i < |refuses| ==> refuses[i] == Refuses(ops, e, i)
    ensures ListsMarked(WithoutRoom(Run(ops)), Run(ops), refuses)
  {
    forall i | 0 <= i < |refuses| ensures refuses[i] == !HasRoom(Run(ops)[i]) {
      RefusedWithoutRoom(ops, e, i);
    }
    WithoutRoomLists(Run(ops), refuses);
  }

  // ----- Subscribers do not affect each other

  datatype PortOp = Offer(event: AccountsCreated) | Take | Close

  function RunPort(name: string, ops: seq<PortOp>): Port {
    if ops == [] then Port(name, [], true)
    else
      var before := RunPort(name, ops[..|ops| - 1]);
      match ops[|ops| - 1]
      case Offer(e) => Offered(before, e)
      case Take => Taken(before)
      case Close => Shut(before)
  }

  /** The publishes since its registration, and subscriber `i`'s own receives and drops. */
  function OwnOps(ops: seq<Op>, i: nat): seq<PortOp> {
    if ops == [] then []
    else
      var init, last := ops[..|ops| - 1], ops[|ops| - 1];
      var before := OwnOps(init, i);
      if i >= |Run(init)| then before
      else if last.Publish? then before + [Offer(last.event)]
      else if last == Receive(i) then before + [Take]
      else if last == Drop(i) then before + [Close]
      else before
  }

  lemma {:induction false} NoOpsBeforeRegistration(ops: seq<Op>, i: nat)
    requires i >= |Run(ops)|
    ensures OwnOps(ops, i) == []
  {
    if ops != [] {
      NoOpsBeforeRegistration(ops[..|ops| - 1], i);
    }
  }

  /** A subscriber is in the state that its own operations lead to when nobody else is subscribed. */
  lemma {:induction false} SubscribersAreIndependent(ops: seq<Op>, i: nat)
    requires i < |Run(ops)|
    ensures Run(ops)[i] == RunPort(Run(ops)[i].name, OwnOps(ops, i))
  {
    var init := ops[..|ops| - 1];
    if i == |Run(init)| {
      NoOpsBeforeRegistration(init, i);
    } else {
      SubscribersAreIndependent(init, i);
      var before, own := OwnOps(init, i), OwnOps(ops, i);
      assert own != before ==> own[..|own| - 1] == before;
    }
  }
}
