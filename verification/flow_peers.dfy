/**
 Two HTTP/2 peers joined by FIFO channels: a sender with reservations and a
 receiver with refill, for the connection and any number of streams at once.
 */
module FlowPeers {
  import opened Common
  import opened FlowControl

  /** An amount charged to the connection and, when named, to one stream. */
  datatype Item = Item(key: Option<Key>, amount: nat)

  function All(items: seq<Item>): nat {
    if items == [] then 0 else items[0].amount + All(items[1..])
  }

  function For(items: seq<Item>, key: Option<Key>): nat {
    if items == [] then 0
    else (if items[0].key == key then items[0].amount else 0) + For(items[1..], key)
  }

  lemma {:induction false} SumsSplit(a: seq<Item>, b: seq<Item>, key: Option<Key>)
    ensures All(a + b) == All(a) + All(b)
    ensures For(a + b, key) == For(a, key) + For(b, key)
  {
    if a == [] {
      assert a + b == b;
    } else {
      assert (a + b)[1..] == a[1..] + b;
      SumsSplit(a[1..], b, key);
    }
  }

  lemma {:induction false} PartBelowWhole(items: seq<Item>, key: Option<Key>)
    ensures For(items, key) <= All(items)
  {
    if items != [] {
      PartBelowWhole(items[1..], key);
    }
  }

  lemma SumsRemove(items: seq<Item>, i: nat, key: Option<Key>)
    requires i < |items|
    ensures All(items[..i] + items[i + 1..]) == All(items) - items[i].amount
    ensures For(items[..i] + items[i + 1..], key) ==
            For(items, key) - if items[i].key == key then items[i].amount else 0
  {
    assert items == items[..i] + ([items[i]] + items[i + 1..]);
    SumsSplit(items[..i], [items[i]] + items[i + 1..], key);
    SumsSplit(items[..i], items[i + 1..], key);
    assert ([items[i]] + items[i + 1..])[1..] == items[i + 1..];
  }

  lemma SumsHead(items: seq<Item>, key: Option<Key>)
    requires items != []
    ensures All(items) == items[0].amount + All(items[1..])
    ensures For(items, key) == For(items[1..], key) + if items[0].key == key then items[0].amount else 0
  {
  }

  lemma SumsPush(items: seq<Item>, item: Item, key: Option<Key>)
    ensures All(items + [item]) == All(items) + item.amount
    ensures For(items + [item], key) == For(items, key) + if item.key == key then item.amount else 0
  {
    SumsSplit(items, [item], key);
  }

  // ---------------------------------------------------------------- sender

  /** Send windows of one connection and the reservations made against them. */
  datatype Sender = Sender(conn: Credit, streams: map<Key, Credit>, staged: seq<Item>)

  datatype SendEvent =
    | Open(key: Key, initial: nat)
    | Close(key: Key)
    | GrantConn(n: nat)
    | GrantStream(key: Key, n: nat)
    | Settings(key: Key, delta: int)     // one stream's share of a settings change
    | Send(key: Key, limit: nat)         // debit_up_to, then commit
    | Stage(key: Key, limit: nat)        // debit_up_to, then reserve
    | AcceptStaged(i: nat)
    | CancelStaged(i: nat)

  function SetStream(s: Sender, key: Key, credit: Credit): Sender {
    s.(streams := s.streams[key := credit])
  }

  /** One operation on the send windows; a refused one changes nothing. */
  function SendStep(s: Sender, e: SendEvent): Sender {
    match e
    case Open(key, initial) =>
      if key in s.streams || initial > MAX || (exists i :: 0 <= i < |s.staged| && s.staged[i].key == Some(key))
      then s
      else SetStream(s, key, Credit(initial, initial))
    case Close(key) => s.(streams := s.streams - {key})
    case GrantConn(n) =>
      var c := s.conn.Increase(n);
      if n == 0 || c.None? then s else s.(conn := c.value)
    case GrantStream(key, n) =>
      if key !in s.streams then s
      else
        var c := s.streams[key].Increase(n);
        if n == 0 || c.None? then s else SetStream(s, key, c.value)
    case Settings(key, delta) =>
      if key !in s.streams then s
      else
        var c := s.streams[key].Adjust(delta);
        if c.None? then s else SetStream(s, key, c.value)
    case Send(key, limit) =>
      if key !in s.streams then s
      else
        var amount := DebitAmount(s.conn, s.streams[key], limit);
        SetStream(s, key, s.streams[key].Spend(amount)).(conn := s.conn.Spend(amount))
    case Stage(key, limit) =>
      if key !in s.streams then s
      else
        var amount := DebitAmount(s.conn, s.streams[key], limit);
        SetStream(s, key, s.streams[key].Reserve(amount))
          .(conn := s.conn.Reserve(amount), staged := s.staged + [Item(Some(key), amount)])
    case AcceptStaged(i) =>
      if i >= |s.staged| then s
      else
        var Item(key, amount) := s.staged[i];
        Settled(s, i, s.conn.Accept(amount),
                if key.Some? && key.value in s.streams then Some(s.streams[key.value].Accept(amount)) else None)
    case CancelStaged(i) =>
      if i >= |s.staged| then s
      else
        var Item(key, amount) := s.staged[i];
        Settled(s, i, s.conn.Cancel(amount),
                if key.Some? && key.value in s.streams then Some(s.streams[key.value].Cancel(amount)) else None)
  }

  /** Removes reservation `i`, leaving these credits behind. */
  function Settled(s: Sender, i: nat, conn: Credit, stream: Option<Credit>): Sender
    requires i < |s.staged|
  {
    Sender(conn,
           if stream.Some? && s.staged[i].key.Some? then s.streams[s.staged[i].key.value := stream.value]
           else s.streams,
           s.staged[..i] + s.staged[i + 1..])
  }

  /** Every window's two counters differ by exactly its outstanding reservations. */
  ghost predicate Conserved(s: Sender) {
    && s.conn.InRange() && 0 <= s.conn.value
    && s.conn.committed - s.conn.value == All(s.staged)
    && (forall k :: k in s.streams ==>
          && s.streams[k].InRange()
          && s.streams[k].committed - s.streams[k].value == For(s.staged, Some(k)))
  }

  lemma {:induction false} ForAbsent(items: seq<Item>, key: Option<Key>)
    requires forall i :: 0 <= i < |items| ==> items[i].key != key
    ensures For(items, key) == 0
  {
    if items != [] {
      ForAbsent(items[1..], key);
    }
  }

  lemma DebitConserves(s: Sender, key: Key, limit: nat)
    requires Conserved(s) && key in s.streams
    ensures Conserved(SendStep(s, Send(key, limit)))
    ensures Conserved(SendStep(s, Stage(key, limit)))
  {
    hide For, All;
    var item := Item(Some(key), DebitAmount(s.conn, s.streams[key], limit));
    SumsPush(s.staged, item, None);
    forall k | k in s.streams
      ensures For(s.staged + [item], Some(k)) == For(s.staged, Some(k)) + if k == key then item.amount else 0
    {
      SumsPush(s.staged, item, Some(k));
    }
  }

  /**
   The amount sent or reserved is the limit or the whole of one window's credit,
   whichever is least, and nothing only when one of them is; sending charges both
   counters of both windows, reserving the scheduler credit, and nothing else changes.
   */
  lemma DebitIsGreatest(s: Sender, key: Key, limit: nat)
    requires key in s.streams
    ensures var conn, stream := s.conn, s.streams[key];
            var sent, staged := SendStep(s, Send(key, limit)), SendStep(s, Stage(key, limit));
            var n := conn.value - sent.conn.value;
            && 0 <= n <= limit
            && (conn.value <= 0 || stream.value <= 0 ==> n == 0)
            && (conn.value > 0 && stream.value > 0 ==>
                  && n <= conn.value && n <= stream.value
                  && (n == limit || n == conn.value || n == stream.value)
                  && (limit > 0 ==> n >= 1))
            && sent == Sender(Credit(conn.value - n, conn.committed - n),
                              s.streams[key := Credit(stream.value - n, stream.committed - n)], s.staged)
            && staged == Sender(Credit(conn.value - n, conn.committed),
                                s.streams[key := Credit(stream.value - n, stream.committed)],
                                s.staged + [Item(Some(key), n)])
  {
  }

  /** Accepting spends what was reserved and cancelling gives it back, once each. */
  lemma SettlesExactly(s: Sender, i: nat)
    requires Conserved(s) && i < |s.staged|
    ensures var Item(key, n) := s.staged[i];
            var left := s.staged[..i] + s.staged[i + 1..];
            var accepted, cancelled := SendStep(s, AcceptStaged(i)), SendStep(s, CancelStaged(i));
            && accepted.staged == left && cancelled.staged == left
            && accepted.conn == Credit(s.conn.value, s.conn.committed - n)
            && cancelled.conn == Credit(s.conn.value + n, s.conn.committed)
            && accepted.streams.Keys == s.streams.Keys && cancelled.streams.Keys == s.streams.Keys
            && forall k :: k in s.streams ==>
                 var Credit(value, committed) := s.streams[k];
                 var m := if key == Some(k) then n else 0;
                 && accepted.streams[k] == Credit(value, committed - m)
                 && cancelled.streams[k] == Credit(value + m, committed)
  {
    hide For, All;
    SumsRemove(s.staged, i, None);
    SumsRemove(s.staged, i, s.staged[i].key);
    PartBelowWhole(s.staged[..i] + s.staged[i + 1..], s.staged[i].key);
  }

  /** WINDOW_UPDATE and settings changes shift both counters of one window, or are refused. */
  lemma ShiftsExactly(s: Sender, key: Key, n: nat, delta: int)
    requires Conserved(s) && n >= 1
    ensures var granted := SendStep(s, GrantConn(n));
            granted == if s.conn.committed + n > MAX then s
                       else s.(conn := Credit(s.conn.value + n, s.conn.committed + n))
    ensures key in s.streams ==>
              var Credit(value, committed) := s.streams[key];
              && SendStep(s, GrantStream(key, n)) ==
                   (if committed + n > MAX then s
                    else s.(streams := s.streams[key := Credit(value + n, committed + n)]))
              && SendStep(s, Settings(key, delta)) ==
                   (if committed + delta > MAX || value + delta < -0x8000_0000 then s
                    else s.(streams := s.streams[key := Credit(value + delta, committed + delta)]))
  {
  }

  lemma SettleConserves(s: Sender, i: nat)
    requires Conserved(s) && i < |s.staged|
    ensures Conserved(SendStep(s, AcceptStaged(i)))
    ensures Conserved(SendStep(s, CancelStaged(i)))
  {
    hide For, All;
    var Item(key, amount) := s.staged[i];
    var left := s.staged[..i] + s.staged[i + 1..];
    SumsRemove(s.staged, i, None);
    forall k | k in s.streams
      ensures For(left, Some(k)) == For(s.staged, Some(k)) - if key == Some(k) then amount else 0
    {
      SumsRemove(s.staged, i, Some(k));
    }
  }

  lemma SendStepConserves(s: Sender, e: SendEvent)
    requires Conserved(s)
    ensures Conserved(SendStep(s, e))
  {
    match e {
      case Open(key, _) =>
        if forall i :: 0 <= i < |s.staged| ==> s.staged[i].key != Some(key) {
          ForAbsent(s.staged, Some(key));
        }
      case Send(key, limit) => if key in s.streams { DebitConserves(s, key, limit); }
      case Stage(key, limit) => if key in s.streams { DebitConserves(s, key, limit); }
      case AcceptStaged(i) => if i < |s.staged| { SettleConserves(s, i); }
      case CancelStaged(i) => if i < |s.staged| { SettleConserves(s, i); }
      case _ =>
    }
  }

  function SendRun(s: Sender, es: seq<SendEvent>): Sender
    decreases es
  {
    if es == [] then s else SendRun(SendStep(s, es[0]), es[1..])
  }

  const FreshSender := Sender(Credit(INITIAL, INITIAL), map[], [])

  /** Any interleaving of operations keeps every window's reservations exact. */
  lemma {:induction false} ReservationsConserved(s: Sender, es: seq<SendEvent>)
    requires Conserved(s)
    ensures Conserved(SendRun(s, es))
    decreases es
  {
    if es != [] {
      SendStepConserves(s, es[0]);
      ReservationsConserved(SendStep(s, es[0]), es[1..]);
    }
  }

  /** The values that one operation narrows to 32 bits. */
  ghost function Narrowed(s: Sender, e: SendEvent): seq<int> {
    match e
    case GrantConn(n) =>
      if n == 0 || s.conn.committed + n > MAX then [] else [s.conn.value + n, s.conn.committed + n]
    case GrantStream(key, n) =>
      if key !in s.streams || n == 0 || s.streams[key].committed + n > MAX then []
      else [s.streams[key].value + n, s.streams[key].committed + n]
    case Settings(key, delta) =>
      if key !in s.streams || s.streams[key].Adjust(delta).None? then []
      else [s.streams[key].value + delta, s.streams[key].committed + delta]
    case AcceptStaged(i) =>
      if i >= |s.staged| then []
      else
        var Item(key, amount) := s.staged[i];
        [s.conn.committed - amount]
        + (if key.Some? && key.value in s.streams then [s.streams[key.value].committed - amount] else [])
    case CancelStaged(i) =>
      if i >= |s.staged| then []
      else
        var Item(key, amount) := s.staged[i];
        [s.conn.value + amount]
        + (if key.Some? && key.value in s.streams then [s.streams[key.value].value + amount] else [])
    case _ => []
  }

  /** After any run, no narrowing cast of the next operation changes its value. */
  lemma NarrowingIsExact(es: seq<SendEvent>, e: SendEvent)
    ensures forall x :: x in Narrowed(SendRun(FreshSender, es), e) ==> CastI32(x) as int == x
  {
    ReservationsConserved(FreshSender, es);
    var s := SendRun(FreshSender, es);
    if (e.AcceptStaged? || e.CancelStaged?) && e.i < |s.staged| {
      SumsRemove(s.staged, e.i, s.staged[e.i].key);
    }
  }

  // ----------------------------------------------------------------- peers

  /** A receive window, its unannounced credit, and the limit it began with. */
  datatype RecvWindow = RecvWindow(value: int, pending: nat, total: nat)

  datatype Receiver =
    Receiver(conn: RecvWindow, streams: map<Key, RecvWindow>, connLow: nat, streamLow: nat)

  /**
   Both peers, DATA and WINDOW_UPDATE in flight, the streams whose initial window
   changed while open, and whether either peer saw an error elsewhere.
   */
  datatype Net =
    Net(sender: Sender, receiver: Receiver, wire: seq<Item>, updates: seq<Item>, adjusted: set<Key>, fault: bool)

  datatype NetEvent =
    | NOpen(key: Key, initial: nat)
    | NCloseSend(key: Key)
    | NCloseRecv(key: Key)
    | NSend(key: Key, limit: nat)
    | NStage(key: Key, limit: nat)
    | NAccept(i: nat)
    | NCancel(i: nat)
    | NSettings(key: Key, delta: int)
    | DeliverData(end: bool)
    | DeliverUpdate

  /** The receive target: announced at once when above the protocol default. */
  function Start(target: nat, streamInitial: nat): Net
    requires target <= MAX
  {
    var window := if target < INITIAL then INITIAL else target;
    Net(FreshSender,
        Receiver(RecvWindow(window, 0, window), map[], Low(target), Low(streamInitial)),
        [],
        if target > INITIAL then [Item(None, target - INITIAL)] else [],
        {}, false)
  }

  function Low(limit: nat): nat {
    if limit / 2 == 0 then 1 else limit / 2
  }

  /** Half of the limit, rounded down, but never nothing. */
  lemma ThresholdIsHalf(limit: nat)
    ensures Low(limit) >= 1
    ensures limit >= 2 ==> 2 * Low(limit) <= limit <= 2 * Low(limit) + 1
    ensures limit < 2 ==> Low(limit) == 1
  {
  }

  predicate Mentions(items: seq<Item>, key: Key) {
    exists i :: 0 <= i < |items| && items[i].key == Some(key)
  }

  predicate Unused(n: Net, key: Key) {
    && key !in n.sender.streams && key !in n.receiver.streams
    && !Mentions(n.sender.staged, key) && !Mentions(n.wire, key) && !Mentions(n.updates, key)
  }

  function Announce(updates: seq<Item>, key: Option<Key>, bump: Option<nat>): seq<Item> {
    if bump.Some? then updates + [Item(key, bump.value)] else updates
  }

  function DeliverDataStep(n: Net, end: bool): Net
    requires n.wire != []
  {
    var Item(key, amount) := n.wire[0];
    var conn := n.receiver.conn;
    var c := Receive(conn.value, conn.pending, n.receiver.connLow, amount, true);
    if c.Failure? then n.(fault := true)
    else
      var taken := n.(wire := n.wire[1..], updates := Announce(n.updates, None, c.value.bump),
                      receiver := n.receiver.(conn := conn.(value := c.value.next, pending := c.value.held)));
      if key.None? || key.value !in n.receiver.streams then taken
      else
        var stream := n.receiver.streams[key.value];
        var s := Receive(stream.value, stream.pending, n.receiver.streamLow, amount, !end);
        if s.Failure? then taken.(fault := n.fault || key.value !in n.adjusted)
        else
          taken.(updates := Announce(taken.updates, key, s.value.bump),
                 receiver := taken.receiver.(streams := n.receiver.streams[
                   key.value := stream.(value := s.value.next, pending := s.value.held)]))
  }

  function DeliverUpdateStep(n: Net): Net
    requires n.updates != []
  {
    var Item(key, amount) := n.updates[0];
    var rest := n.(updates := n.updates[1..]);
    if key.None? then
      if n.sender.conn.Increase(amount).None? then n.(fault := true)
      else rest.(sender := SendStep(n.sender, GrantConn(amount)))
    else if key.value in n.sender.streams && n.sender.streams[key.value].Increase(amount).None? then
      rest.(fault := n.fault || key.value !in n.adjusted)
    else rest.(sender := SendStep(n.sender, GrantStream(key.value, amount)))
  }

  function NetStep(n: Net, e: NetEvent): Net {
    match e
    case NOpen(key, initial) =>
      if !Unused(n, key) || initial > MAX then n
      else
        n.(sender := SendStep(n.sender, Open(key, initial)), adjusted := n.adjusted - {key},
           receiver := n.receiver.(streams := n.receiver.streams[key := RecvWindow(initial, 0, initial)]))
    case NCloseSend(key) => n.(sender := SendStep(n.sender, Close(key)))
    case NCloseRecv(key) => n.(receiver := n.receiver.(streams := n.receiver.streams - {key}))
    case NSend(key, limit) =>
      if key !in n.sender.streams then n
      else
        var bound := Min(limit, MAX_LENGTH);
        n.(sender := SendStep(n.sender, Send(key, bound)),
           wire := n.wire + [Item(Some(key), DebitAmount(n.sender.conn, n.sender.streams[key], bound))])
    case NStage(key, limit) => n.(sender := SendStep(n.sender, Stage(key, Min(limit, MAX_LENGTH))))
    case NAccept(i) =>
      if i >= |n.sender.staged| then n
      else n.(sender := SendStep(n.sender, AcceptStaged(i)), wire := n.wire + [n.sender.staged[i]])
    case NCancel(i) => n.(sender := SendStep(n.sender, CancelStaged(i)))
    case NSettings(key, delta) =>
      if key !in n.sender.streams then n
      else n.(sender := SendStep(n.sender, Settings(key, delta)), adjusted := n.adjusted + {key})
    case DeliverData(end) => if n.wire == [] then n else DeliverDataStep(n, end)
    case DeliverUpdate => if n.updates == [] then n else DeliverUpdateStep(n)
  }

  function NetRun(n: Net, es: seq<NetEvent>): Net
    decreases es
  {
    if es == [] then n else NetRun(NetStep(n, es[0]), es[1..])
  }

  ghost predicate WindowConserved(w: RecvWindow) {
    0 <= w.value && w.value + w.pending == w.total <= MAX
  }

  /** What one stream's two ends owe each other. */
  ghost predicate StreamBalanced(n: Net, k: Key) {
    var key := Some(k);
    && (k in n.receiver.streams ==> WindowConserved(n.receiver.streams[k]))
    && (k in n.sender.streams ==> n.sender.streams[k].value >= 0)
    && (k in n.receiver.streams && k in n.sender.streams ==>
          n.receiver.streams[k].value == n.sender.streams[k].committed + For(n.wire, key) + For(n.updates, key))
    && (k in n.receiver.streams && k !in n.sender.streams ==>
          n.receiver.streams[k].value >= For(n.sender.staged, key) + For(n.wire, key))
    && (k !in n.receiver.streams && k in n.sender.streams ==>
          n.sender.streams[k].committed + For(n.updates, key) <= MAX)
  }

  /** An open stream whose initial window never changed while it was open. */
  predicate Watched(n: Net, k: Key) {
    (k in n.sender.streams || k in n.receiver.streams) && k !in n.adjusted
  }

  ghost predicate Balanced(n: Net) {
    && !n.fault
    && Conserved(n.sender)
    && WindowConserved(n.receiver.conn) && n.receiver.conn.pending < n.receiver.connLow
    && n.receiver.conn.value == n.sender.conn.committed + All(n.wire) + For(n.updates, None)
    && (forall i :: 0 <= i < |n.updates| ==> n.updates[i].amount >= 1)
    && (forall k :: k in n.receiver.streams ==> WindowConserved(n.receiver.streams[k]))
    && (forall k :: Watched(n, k) ==> StreamBalanced(n, k))
  }

  lemma SendStreamBalanced(n: Net, key: Key, limit: nat, k: Key)
    requires key in n.sender.streams && StreamBalanced(n, k)
    ensures StreamBalanced(NetStep(n, NSend(key, limit)), k)
    ensures StreamBalanced(NetStep(n, NStage(key, limit)), k)
  {
    hide For, All;
    var item := Item(Some(key), DebitAmount(n.sender.conn, n.sender.streams[key], Min(limit, MAX_LENGTH)));
    SumsPush(n.wire, item, Some(k));
    SumsPush(n.sender.staged, item, Some(k));
  }

  lemma SendBalanced(n: Net, key: Key, limit: nat)
    requires Balanced(n) && key in n.sender.streams
    ensures Balanced(NetStep(n, NSend(key, limit)))
    ensures Balanced(NetStep(n, NStage(key, limit)))
  {
    hide For, All;
    var bound := Min(limit, MAX_LENGTH);
    DebitConserves(n.sender, key, bound);
    SumsPush(n.wire, Item(Some(key), DebitAmount(n.sender.conn, n.sender.streams[key], bound)), None);
    forall k | Watched(n, k)
      ensures StreamBalanced(NetStep(n, NSend(key, limit)), k)
      ensures StreamBalanced(NetStep(n, NStage(key, limit)), k)
    {
      SendStreamBalanced(n, key, limit, k);
    }
  }

  lemma SettleStreamBalanced(n: Net, i: nat, k: Key)
    requires i < |n.sender.staged| && StreamBalanced(n, k)
    requires n.sender.staged[i].amount <= MAX
    requires k in n.sender.streams ==>
               && n.sender.streams[k].InRange()
               && n.sender.streams[k].committed - n.sender.streams[k].value == For(n.sender.staged, Some(k))
    ensures StreamBalanced(NetStep(n, NAccept(i)), k)
    ensures StreamBalanced(NetStep(n, NCancel(i)), k)
  {
    hide For, All;
    SumsPush(n.wire, n.sender.staged[i], Some(k));
    SumsRemove(n.sender.staged, i, Some(k));
  }

  lemma SettleBalanced(n: Net, i: nat)
    requires Balanced(n) && i < |n.sender.staged|
    ensures Balanced(NetStep(n, NAccept(i)))
    ensures Balanced(NetStep(n, NCancel(i)))
  {
    hide For, All;
    SettleConserves(n.sender, i);
    SumsRemove(n.sender.staged, i, None);
    SumsPush(n.wire, n.sender.staged[i], None);
    forall k | Watched(n, k)
      ensures StreamBalanced(NetStep(n, NAccept(i)), k)
      ensures StreamBalanced(NetStep(n, NCancel(i)), k)
    {
      assert StreamBalanced(n, k);
      SettleStreamBalanced(n, i, k);
    }
  }

  lemma OpenCloseBalanced(n: Net, e: NetEvent)
    requires Balanced(n) && (e.NOpen? || e.NCloseSend? || e.NCloseRecv? || e.NSettings?)
    ensures Balanced(NetStep(n, e))
  {
    hide For, All;
    var m := NetStep(n, e);
    if e.NOpen? && Unused(n, e.key) {
      ForAbsent(n.sender.staged, Some(e.key));
      ForAbsent(n.wire, Some(e.key));
      ForAbsent(n.updates, Some(e.key));
    }
    forall k | Watched(m, k) ensures StreamBalanced(m, k) {
      if Watched(n, k) {
        assert StreamBalanced(n, k);
      }
    }
  }

  lemma AnnounceSums(updates: seq<Item>, key: Option<Key>, bump: Option<nat>, k: Option<Key>)
    ensures For(Announce(updates, key, bump), k) ==
            For(updates, k) + if bump.Some? && key == k then bump.value else 0
  {
    if bump.Some? {
      SumsPush(updates, Item(key, bump.value), k);
    }
  }

  /** Receiving against a conserved window for DATA the peer had credit to send. */
  lemma DataAccepted(n: Net)
    requires Balanced(n) && n.wire != []
    ensures n.wire[0].amount <= n.receiver.conn.value
    ensures var key := n.wire[0].key;
            key.Some? && key.value in n.receiver.streams && key.value !in n.adjusted ==>
              StreamBalanced(n, key.value) && n.wire[0].amount <= n.receiver.streams[key.value].value
  {
    var key := n.wire[0].key;
    assert n.receiver.conn.value >= All(n.wire);
    if key.Some? && key.value in n.receiver.streams && key.value !in n.adjusted {
      assert Watched(n, key.value);
      assert For(n.wire, key) >= n.wire[0].amount;
    }
  }

  lemma DataConnBalanced(n: Net, end: bool)
    requires Balanced(n) && n.wire != []
    ensures var m := DeliverDataStep(n, end);
            && !m.fault && m.sender == n.sender && m.receiver.connLow == n.receiver.connLow
            && WindowConserved(m.receiver.conn) && m.receiver.conn.pending < m.receiver.connLow
            && m.receiver.conn.value == m.sender.conn.committed + All(m.wire) + For(m.updates, None)
            && (forall i :: 0 <= i < |m.updates| ==> m.updates[i].amount >= 1)
            && (forall k :: k in m.receiver.streams ==> WindowConserved(m.receiver.streams[k]))
  {
    SumsHead(n.wire, None);
    hide For, All;
    DataAccepted(n);
    var Item(key, amount) := n.wire[0];
    var conn := n.receiver.conn;
    ReceiveConserves(conn.value, conn.pending, n.receiver.connLow, amount, true);
    var c := Receive(conn.value, conn.pending, n.receiver.connLow, amount, true).value;
    AnnounceSums(n.updates, None, c.bump, None);
    if key.Some? && key.value in n.receiver.streams {
      var stream := n.receiver.streams[key.value];
      ReceiveConserves(stream.value, stream.pending, n.receiver.streamLow, amount, !end);
      var s := Receive(stream.value, stream.pending, n.receiver.streamLow, amount, !end);
      if s.Success? {
        AnnounceSums(Announce(n.updates, None, c.bump), key, s.value.bump, None);
      }
    }
  }

  lemma DataStreamBalanced(n: Net, end: bool, k: Key)
    requires n.wire != [] && StreamBalanced(n, k)
    requires WindowConserved(n.receiver.conn) && n.wire[0].amount <= n.receiver.conn.value
    requires n.wire[0].key == Some(k) && k in n.receiver.streams ==>
               && WindowConserved(n.receiver.streams[k])
               && n.wire[0].amount <= n.receiver.streams[k].value
    ensures StreamBalanced(DeliverDataStep(n, end), k)
  {
    SumsHead(n.wire, Some(k));
    hide For, All;
    var Item(key, amount) := n.wire[0];
    var conn := n.receiver.conn;
    ReceiveConserves(conn.value, conn.pending, n.receiver.connLow, amount, true);
    var c := Receive(conn.value, conn.pending, n.receiver.connLow, amount, true).value;
    AnnounceSums(n.updates, None, c.bump, Some(k));
    if key.Some? && key.value in n.receiver.streams {
      var stream := n.receiver.streams[key.value];
      if key.value == k {
        ReceiveConserves(stream.value, stream.pending, n.receiver.streamLow, amount, !end);
      }
      var s := Receive(stream.value, stream.pending, n.receiver.streamLow, amount, !end);
      if s.Success? {
        AnnounceSums(Announce(n.updates, None, c.bump), key, s.value.bump, Some(k));
      }
    }
  }

  lemma DataBalanced(n: Net, end: bool)
    requires Balanced(n) && n.wire != []
    ensures Balanced(DeliverDataStep(n, end))
  {
    hide For, All;
    DataConnBalanced(n, end);
    var m := DeliverDataStep(n, end);
    forall k | Watched(m, k) ensures StreamBalanced(m, k) {
      assert Watched(n, k);
      DataAccepted(n);
      DataStreamBalanced(n, end, k);
    }
  }

  lemma UpdateStreamBalanced(n: Net, k: Key)
    requires Balanced(n) && n.updates != [] && Watched(n, k)
    ensures StreamBalanced(DeliverUpdateStep(n), k)
  {
    SumsHead(n.updates, Some(k));
    hide For, All;
    assert StreamBalanced(n, k);
  }

  lemma UpdateBalanced(n: Net)
    requires Balanced(n) && n.updates != []
    ensures Balanced(DeliverUpdateStep(n))
  {
    SumsHead(n.updates, None);
    hide For, All;
    var Item(key, amount) := n.updates[0];
    if key.Some? {
      if key.value in n.sender.streams && key.value !in n.adjusted { assert Watched(n, key.value); }
      SendStepConserves(n.sender, GrantStream(key.value, amount));
    } else {
      SendStepConserves(n.sender, GrantConn(amount));
    }
    var m := DeliverUpdateStep(n);
    forall k | Watched(m, k) ensures StreamBalanced(m, k) {
      UpdateStreamBalanced(n, k);
    }
  }

  lemma NetStepBalanced(n: Net, e: NetEvent)
    requires Balanced(n)
    ensures Balanced(NetStep(n, e))
  {
    match e {
      case NSend(key, limit) => if key in n.sender.streams { SendBalanced(n, key, limit); }
      case NStage(key, limit) => if key in n.sender.streams { SendBalanced(n, key, limit); }
      case NAccept(i) => if i < |n.sender.staged| { SettleBalanced(n, i); }
      case NCancel(i) => if i < |n.sender.staged| { SettleBalanced(n, i); }
      case DeliverData(end) => if n.wire != [] { DataBalanced(n, end); }
      case DeliverUpdate => if n.updates != [] { UpdateBalanced(n); }
      case _ => OpenCloseBalanced(n, e);
    }
  }

  lemma {:induction false} RunBalanced(n: Net, es: seq<NetEvent>)
    requires Balanced(n)
    ensures Balanced(NetRun(n, es))
    decreases es
  {
    if es != [] {
      NetStepBalanced(n, es[0]);
      RunBalanced(NetStep(n, es[0]), es[1..]);
    }
  }

  /**
   In every reachable state neither peer reports a flow-control error, the
   connection's credit is accounted for exactly and announced before it reaches
   the threshold, and so is the credit of each open stream whose initial window
   did not change while it was open. On streams where it changed, a stall or an
   overflow stays the affair of that stream.
   */
  lemma PeersNeverStall(target: nat, streamInitial: nat, es: seq<NetEvent>)
    requires target <= MAX
    ensures var n := NetRun(Start(target, streamInitial), es);
            && !n.fault
            && n.receiver.conn.value == n.sender.conn.committed + All(n.wire) + For(n.updates, None)
            && n.receiver.conn.value + n.receiver.conn.pending == n.receiver.conn.total
            && n.receiver.conn.pending < n.receiver.connLow
            && (forall k :: k in n.sender.streams && k in n.receiver.streams && k !in n.adjusted ==>
                  n.receiver.streams[k].value ==
                  n.sender.streams[k].committed + For(n.wire, Some(k)) + For(n.updates, Some(k)))
            && (forall k :: k in n.receiver.streams ==> WindowConserved(n.receiver.streams[k]))
  {
    var start := Start(target, streamInitial);
    StartBalanced(target, streamInitial);
    RunBalanced(start, es);
    hide NetRun, NetStep, Start, For, All;
    BalancedFacts(NetRun(start, es));
  }

  /** The connection's limit is the target, at least 65535, for the whole run. */
  lemma {:induction false} RunKeepsLimits(n: Net, es: seq<NetEvent>)
    ensures var end := NetRun(n, es).receiver;
            end.conn.total == n.receiver.conn.total && end.connLow == n.receiver.connLow
    decreases es
  {
    if es != [] {
      RunKeepsLimits(NetStep(n, es[0]), es[1..]);
    }
  }

  /**
   Nothing can deadlock on the connection: in every reachable state where all DATA
   and increments have arrived and no reservation is outstanding, the sender holds
   all credit but an unannounced rest below half of the target, so a stream with
   credit can send.
   */
  lemma IdleConnectionHasCredit(target: nat, streamInitial: nat, es: seq<NetEvent>, key: Key, limit: nat)
    requires target <= MAX
    ensures var n := NetRun(Start(target, streamInitial), es);
            var s := n.sender;
            n.wire == [] && n.updates == [] && s.staged == [] ==>
              && s.conn.value == s.conn.committed == n.receiver.conn.value
              && s.conn.value >= 65_535 - target / 2 && s.conn.value >= target - target / 2 && s.conn.value >= 1
              && (key in s.streams && s.streams[key].value > 0 && limit > 0 ==>
                    SendStep(s, Send(key, limit)).conn.value < s.conn.value)
  {
    var start := Start(target, streamInitial);
    PeersNeverStall(target, streamInitial, es);
    RunKeepsLimits(start, es);
    StartBalanced(target, streamInitial);
    RunBalanced(start, es);
    var n := NetRun(start, es);
    hide NetRun, SendStep;
    if key in n.sender.streams {
      DebitIsGreatest(n.sender, key, limit);
    }
  }

  lemma StartBalanced(target: nat, streamInitial: nat)
    requires target <= MAX
    ensures Balanced(Start(target, streamInitial))
  {
    assert forall k :: !Watched(Start(target, streamInitial), k);
  }

  lemma BalancedFacts(n: Net)
    requires Balanced(n)
    ensures forall k :: k in n.sender.streams && k in n.receiver.streams && k !in n.adjusted ==>
              n.receiver.streams[k].value ==
              n.sender.streams[k].committed + For(n.wire, Some(k)) + For(n.updates, Some(k))
  {
    hide For, All;
    forall k | k in n.sender.streams && k in n.receiver.streams && k !in n.adjusted
      ensures n.receiver.streams[k].value ==
              n.sender.streams[k].committed + For(n.wire, Some(k)) + For(n.updates, Some(k))
    {
      assert Watched(n, k);
    }
  }
}
