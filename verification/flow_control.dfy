/**
 HTTP/2 flow-control windows: the windows, debits, reservations and receive
 endpoints of one side, as objects proved against functions on plain integers.
 */
module FlowControl {
  import opened Common

  newtype i32 = x: int | -0x8000_0000 <= x < 0x8000_0000
  newtype u32 = x: int | 0 <= x < 0x1_0000_0000

  const MAX := 0x7fff_ffff
  const INITIAL := 65_535
  const MAX_LENGTH := 0x00ff_ffff

  /** The narrowing cast from a 64-bit integer, which keeps the low 32 bits. */
  function CastI32(x: int): (r: i32)
    ensures -0x8000_0000 <= x <= MAX ==> r as int == x
  {
    var low := x % 0x1_0000_0000;
    (if low <= MAX then low else low - 0x1_0000_0000) as i32
  }

  /** A stream identity that is never reused while a reservation names it. */
  type Key = nat

  /** Scheduler credit and protocol credit of one window. */
  datatype Credit = Credit(value: int, committed: int) {
    predicate InRange() {
      -0x8000_0000 <= value <= MAX && -0x8000_0000 <= committed <= MAX
    }

    function Available(): nat {
      if value < 0 then 0 else value
    }

    /** WINDOW_UPDATE, refused when protocol credit would exceed the maximum. */
    function Increase(n: int): Option<Credit> {
      if committed + n > MAX then None
      else Some(Credit(CastI32(value + n) as int, CastI32(committed + n) as int))
    }

    /** A SETTINGS_INITIAL_WINDOW_SIZE change. */
    function Adjust(delta: int): Option<Credit> {
      if committed + delta > MAX || value + delta < -0x8000_0000 then None
      else Some(Credit(CastI32(value + delta) as int, CastI32(committed + delta) as int))
    }

    function Spend(amount: int): Credit { Credit(value - amount, committed - amount) }
    function Reserve(amount: int): Credit { Credit(value - amount, committed) }
    function Accept(amount: int): Credit { Credit(value, CastI32(committed - amount) as int) }
    function Cancel(amount: int): Credit { Credit(CastI32(value + amount) as int, committed) }
  }

  function DebitAmount(conn: Credit, stream: Credit, limit: nat): nat {
    Min(Min(conn.Available(), stream.Available()), limit)
  }

  datatype Refusal = Stalled(available: int, amount: int) | Refill(spent: int, held: int)

  /** A receive endpoint: the window and pending credit after its commit. */
  datatype Receipt = Receipt(next: int, held: nat, bump: Option<nat>)

  /** Receiving `amount` bytes against a window and its unannounced credit. */
  function Receive(value: int, pending: nat, limit: nat, amount: nat, refill: bool): Result<Receipt, Refusal> {
    if amount > (if value > 0 then value else 0) then Failure(Stalled(value, amount))
    else if amount == 0 then Success(Receipt(value, pending, None))
    else
      var held := pending + amount;
      var spent := value - amount;
      if !refill || held < limit then Success(Receipt(spent, held, None))
      else if 1 <= held <= MAX then Success(Receipt(spent + held, 0, Some(held)))
      else Failure(Refusal.Refill(spent, held))
  }

  /**
   Under the conserved total of a receive window the only refusal is a stall,
   the total survives, and a refilling receipt leaves less than the threshold.
   */
  lemma ReceiveConserves(value: int, pending: nat, limit: nat, amount: nat, refill: bool)
    requires 0 <= value && value + pending <= MAX
    ensures var r := Receive(value, pending, limit, amount, refill);
            && (r.Success? <==> amount <= value)
            && (r.Failure? ==> r.error == Stalled(value, amount))
            && (r.Success? ==>
                  && r.value.next + r.value.held == value + pending
                  && r.value.held <= pending + amount <= MAX
                  && 0 <= r.value.next
                  && (r.value.bump.Some? ==> r.value.bump.value == r.value.next - (value - amount) >= 1)
                  && (r.value.bump.None? ==> r.value.next == value - amount))
            && (r.Success? && refill && amount > 0 && limit > 0 ==> r.value.held < limit)
            && (r.Success? ==> (r.value.bump.Some? <==> refill && amount > 0 && pending + amount >= limit))
            && (r.Success? && r.value.bump.Some? ==> r.value.held == 0 && r.value.bump.value == pending + amount)
  {
  }

  class Window {
    var value: i32
    var committed: i32

    constructor With(value: i32)
      ensures Abs() == Credit(value as int, value as int)
    {
      this.value, committed := value, value;
    }

    ghost function Abs(): (c: Credit)
      reads this
      ensures c.InRange()
    {
      Credit(value as int, committed as int)
    }

    function Available(): (n: nat)
      reads this
      ensures n == Abs().Available()
    {
      if value < 0 then 0 else value as nat
    }

    method Increase(inc: u32) returns (ok: bool)
      requires 1 <= inc as int <= MAX
      modifies this
      ensures ok == old(Abs()).Increase(inc as int).Some?
      ensures Abs() == if ok then old(Abs()).Increase(inc as int).value else old(Abs())
      ensures ok <==> old(committed) as int + inc as int <= MAX
      ensures ok && old(value) <= old(committed) ==>
                value as int == old(value) as int + inc as int && committed as int == old(committed) as int + inc as int
    {
      var bound := committed as int + inc as int;
      var next := value as int + inc as int;
      if bound > MAX {
        return false;
      }
      value, committed := CastI32(next), CastI32(bound);
      return true;
    }

    method Adjust(delta: i32) returns (ok: bool)
      modifies this
      ensures ok == old(Abs()).Adjust(delta as int).Some?
      ensures Abs() == if ok then old(Abs()).Adjust(delta as int).value else old(Abs())
      ensures ok <==> old(committed) as int + delta as int <= MAX && old(value) as int + delta as int >= -0x8000_0000
      ensures ok && old(value) <= old(committed) ==>
                value as int == old(value) as int + delta as int
                && committed as int == old(committed) as int + delta as int
    {
      var next := value as int + delta as int;
      var bound := committed as int + delta as int;
      if bound > MAX || next < -0x8000_0000 {
        return false;
      }
      value, committed := CastI32(next), CastI32(bound);
      return true;
    }
  }

  /** Reserved credit, to be accepted or cancelled once. */
  datatype Reserved = Reserved(key: Key, amount: u32) {
    method Accept(conn: Window, stream: Option<Window>)
      requires stream.Some? ==> stream.value != conn
      modifies conn, if stream.Some? then {stream.value} else {}
      ensures conn.Abs() == old(conn.Abs()).Accept(amount as int)
      ensures stream.Some? ==> stream.value.Abs() == old(stream.value.Abs()).Accept(amount as int)
      ensures old(conn.committed) as int - amount as int >= -0x8000_0000 ==>
                conn.committed as int == old(conn.committed) as int - amount as int && conn.value == old(conn.value)
      ensures stream.Some? && old(stream.value.committed) as int - amount as int >= -0x8000_0000 ==>
                && stream.value.committed as int == old(stream.value.committed) as int - amount as int
                && stream.value.value == old(stream.value.value)
    {
      conn.committed := CastI32(conn.committed as int - amount as int);
      if stream.Some? {
        stream.value.committed := CastI32(stream.value.committed as int - amount as int);
      }
    }

    method Cancel(conn: Window, stream: Option<Window>)
      requires stream.Some? ==> stream.value != conn
      modifies conn, if stream.Some? then {stream.value} else {}
      ensures conn.Abs() == old(conn.Abs()).Cancel(amount as int)
      ensures stream.Some? ==> stream.value.Abs() == old(stream.value.Abs()).Cancel(amount as int)
      ensures old(conn.value) as int + amount as int <= MAX ==>
                conn.value as int == old(conn.value) as int + amount as int && conn.committed == old(conn.committed)
      ensures stream.Some? && old(stream.value.value) as int + amount as int <= MAX ==>
                && stream.value.value as int == old(stream.value.value) as int + amount as int
                && stream.value.committed == old(stream.value.committed)
    {
      conn.value := CastI32(conn.value as int + amount as int);
      if stream.Some? {
        stream.value.value := CastI32(stream.value.value as int + amount as int);
      }
    }
  }

  /** A debit bound to one connection window and one stream window. */
  datatype Debit = Debit(conn: Window, stream: Window, key: Key, amount: i32) {
    /** `debit_up_to`: protocol credit never lies below scheduler credit. */
    static method UpTo(conn: Window, stream: Window, key: Key, limit: nat) returns (d: Debit)
      requires conn != stream
      ensures d == Debit(conn, stream, key, d.amount)
      ensures d.amount as int == DebitAmount(conn.Abs(), stream.Abs(), limit)
      ensures 0 <= d.amount as int <= limit
      ensures conn.value > 0 && stream.value > 0 ==>
                && d.amount <= conn.value && d.amount <= stream.value
                && (d.amount as int == limit || d.amount == conn.value || d.amount == stream.value)
      ensures conn.value <= 0 || stream.value <= 0 ==> d.amount == 0
    {
      d := Debit(conn, stream, key, Min(Min(conn.Available(), stream.Available()), limit) as i32);
    }

    ghost predicate Covered()
      reads conn, stream
    {
      && conn != stream && 0 <= amount
      && conn.committed >= conn.value && (amount == 0 || amount <= conn.value)
      && stream.committed >= stream.value && (amount == 0 || amount <= stream.value)
    }

    method Commit()
      requires Covered()
      modifies conn, stream
      ensures conn.Abs() == old(conn.Abs()).Spend(amount as int)
      ensures stream.Abs() == old(stream.Abs()).Spend(amount as int)
    {
      conn.value := conn.value - amount;
      conn.committed := conn.committed - amount;
      stream.value := stream.value - amount;
      stream.committed := stream.committed - amount;
    }

    method Reserve() returns (r: Reserved)
      requires Covered()
      modifies conn, stream
      ensures r == Reserved(key, amount as u32)
      ensures conn.Abs() == old(conn.Abs()).Reserve(amount as int)
      ensures stream.Abs() == old(stream.Abs()).Reserve(amount as int)
    {
      conn.value := conn.value - amount;
      stream.value := stream.value - amount;
      r := Reserved(key, amount as u32);
    }
  }

  /** Credit consumed by the application but not yet announced to the peer. */
  class Pending {
    var credit: u32
  }

  datatype Endpoint = Endpoint(window: Window, pending: Pending, next: i32, held: u32, bump: Option<nat>) {
    static method New(window: Window, pending: Pending, limit: u32, amount: u32, refill: bool)
      returns (r: Result<Endpoint, Refusal>)
      requires amount as int <= MAX_LENGTH
      // The admitted initial limit, conserved by every committed endpoint.
      requires window.value as int + pending.credit as int <= MAX
      ensures match Receive(window.value as int, pending.credit as int, limit as int, amount as int, refill)
              case Failure(error) => r == Failure(error)
              case Success(receipt) => r.Success? && r.value.Holds(window, pending, receipt)
    {
      var debit := amount as i32;
      if debit > (if window.value > 0 then window.value else 0) {
        return Failure(Stalled(window.value as int, amount as int));
      }
      if amount == 0 {
        return Success(Endpoint(window, pending, window.value, pending.credit, None));
      }
      var held := pending.credit + amount;
      var spent := window.value - debit;
      if !refill || held < limit {
        return Success(Endpoint(window, pending, spent, held, None));
      }
      if !(1 <= held as int <= MAX) {
        return Failure(Refusal.Refill(spent as int, held as int));
      }
      return Success(Endpoint(window, pending, spent + held as i32, 0, Some(held as nat)));
    }

    /** The endpoint of `window` and `pending` with the outcome `receipt`. */
    predicate Holds(window: Window, pending: Pending, receipt: Receipt) {
      && this.window == window && this.pending == pending
      && next as int == receipt.next && held as int == receipt.held && bump == receipt.bump
    }

    method Commit()
      modifies window, pending
      ensures window.Abs() == Credit(next as int, next as int)
      ensures pending.credit == held
    {
      window.value := next;
      window.committed := next;
      pending.credit := held;
    }
  }

  datatype Boundary = More | End

  /** The connection's endpoint, and the stream's or its refusal; nothing is committed yet. */
  datatype Admission = Admission(conn: Endpoint, stream: Result<Endpoint, Refusal>)

  /** Both receive windows of one stream, with their unannounced credit and thresholds. */
  datatype Pair = Pair(conn: Window, stream: Window) {
    /** The last DATA of a stream refills the connection only. */
    method ReceiveData(connPending: Pending, streamPending: Pending, connLimit: u32, streamLimit: u32,
                       amount: u32, boundary: Boundary)
      returns (r: Result<Admission, Refusal>)
      requires amount as int <= MAX_LENGTH
      requires conn.value as int + connPending.credit as int <= MAX
      requires stream.value as int + streamPending.credit as int <= MAX
      ensures var c := Receive(conn.value as int, connPending.credit as int, connLimit as int, amount as int, true);
              var s := Receive(stream.value as int, streamPending.credit as int, streamLimit as int, amount as int,
                               boundary == More);
              && (c.Failure? ==> r == Failure(c.error))
              && (c.Success? ==> r.Success? && r.value.conn.Holds(conn, connPending, c.value))
              && (c.Success? && s.Failure? ==> r.value.stream == Failure(s.error))
              && (c.Success? && s.Success? ==>
                    r.value.stream.Success? && r.value.stream.value.Holds(stream, streamPending, s.value))
    {
      var first := Endpoint.New(conn, connPending, connLimit, amount, true);
      if first.Failure? {
        return Failure(first.error);
      }
      var second := Endpoint.New(stream, streamPending, streamLimit, amount, boundary == More);
      r := Success(Admission(first.value, second));
    }
  }
}
