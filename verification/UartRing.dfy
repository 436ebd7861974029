/** The UART transmit ring: `uart_txChar` fills it, the hardware empties it.

    The producer's accesses are single steps and the hardware may send a byte between any two
    of them. */
module UartRing {
  import opened Words

  const TX_SIZE: nat := 50
  /** `uart_txChar` waits while the hardware reports this many unsent bytes or more. */
  const TX_LIMIT: nat := TX_SIZE - 10

  /** What `uart_txChar` does next with the byte it was given. */
  datatype Producer = Ready | Poll(c: Byte) | Store(c: Byte) | Publish(c: Byte)

  /** `tx` is the driver's pointer, `wptr` the register it publishes, `rptr` the hardware's read
      position, all as offsets into the buffer.  `offered` are the bytes given to `uart_txChar`,
      `wire` the bytes the hardware has sent. */
  datatype Uart = Uart(buf: seq<Byte>, tx: nat, wptr: nat, rptr: nat, producer: Producer,
                       offered: seq<Byte>, wire: seq<Byte>) {
    predicate InBounds() {
      |buf| == TX_SIZE && tx < TX_SIZE && wptr < TX_SIZE && rptr < TX_SIZE
    }

    /** The hardware's count of unsent bytes. */
    function Items(): nat
      requires InBounds()
    {
      if rptr <= wptr then wptr - rptr else wptr + TX_SIZE - rptr
    }

    function Unsent(): seq<Byte>
      requires InBounds()
    {
      seq(Items(), i requires 0 <= i < Items() => buf[Around(rptr, i)])
    }

    function InHand(): seq<Byte> {
      if producer.Ready? then [] else [producer.c]
    }

    /** A call of `uart_txChar`; there is one caller, which does not call again before it is done. */
    function Offer(c: Byte): Uart {
      if producer.Ready? then this.(producer := Poll(c), offered := offered + [c]) else this
    }

    /** The next access of `uart_txChar`. */
    function Produce(): Uart
      requires InBounds()
    {
      match producer
      case Ready => this
      case Poll(c) => if Items() >= TX_LIMIT then this else this.(producer := Store(c))
      case Store(c) => this.(buf := buf[tx := c], producer := Publish(c))
      case Publish(c) =>
        var next := if tx + 1 > TX_SIZE - 1 then 0 else tx + 1;
        this.(tx := next, wptr := next, producer := Ready)
    }

    /** The hardware sends one byte, if there is one. */
    function Transmit(): Uart
      requires InBounds()
    {
      if rptr == wptr then this
      else this.(wire := wire + [buf[rptr]], rptr := if rptr + 1 > TX_SIZE - 1 then 0 else rptr + 1)
    }
  }

  /** The position `i` places after `r` around the buffer. */
  function Around(r: nat, i: nat): nat {
    if r + i < TX_SIZE then r + i else r + i - TX_SIZE
  }

  function Initial(): Uart {
    Uart(seq(TX_SIZE, i => 0), 0, 0, 0, Ready, [], [])
  }

  /** What every step keeps: the ring is never more than four fifths full, and every byte offered
      is on the wire, in the buffer or in the producer's hand, in that order. */
  predicate Good(u: Uart) {
    && u.InBounds()
    && u.wptr == u.tx
    && u.Items() <= TX_LIMIT
    && (u.producer.Store? || u.producer.Publish? ==> u.Items() < TX_LIMIT)
    && (u.producer.Publish? ==> u.buf[u.tx] == u.producer.c)
    && u.wire + u.Unsent() + u.InHand() == u.offered
  }

  lemma ProduceKeepsGood(u: Uart)
    requires Good(u)
    ensures Good(u.Produce())
  {
    var u' := u.Produce();
    match u.producer
    case Store(c) =>
      StoreKeepsUnsent(u);
    case Publish(c) =>
      assert u'.Items() == u.Items() + 1;
      assert Around(u.rptr, u.Items()) == u.tx;
      assert u'.Unsent() == u.Unsent() + [c];
      assert u'.wire + u'.Unsent() + u'.InHand() == u.wire + u.Unsent() + u.InHand();
    case _ =>
  }

  lemma OfferKeepsGood(u: Uart, c: Byte)
    requires Good(u)
    ensures Good(u.Offer(c))
  {
    if u.producer.Ready? {
      assert u.Offer(c).Unsent() == u.Unsent();
      assert u.wire + u.Unsent() + [c] == u.offered + [c];
    }
  }

  /** The store never overwrites an unsent byte. */
  lemma StoreKeepsUnsent(u: Uart)
    requires Good(u) && u.producer.Store?
    ensures u.Produce().Unsent() == u.Unsent()
  {
    assert forall i :: 0 <= i < u.Items() ==> Around(u.rptr, i) != u.tx;
  }

  lemma TransmitKeepsGood(u: Uart)
    requires Good(u)
    ensures Good(u.Transmit())
    ensures u.rptr != u.wptr ==> u.Transmit().wire == u.wire + [u.Unsent()[0]]
  {
    var u' := u.Transmit();
    if u.rptr != u.wptr {
      assert u'.Items() == u.Items() - 1;
      assert forall i :: 0 <= i < u'.Items() ==> Around(u'.rptr, i) == Around(u.rptr, i + 1);
      assert u.Unsent() == [u.Unsent()[0]] + u'.Unsent();
      assert u'.wire + u'.Unsent() == u.wire + u.Unsent();
    }
  }

  /** `uart_txChar` waits exactly while 40 bytes or more are unsent. */
  lemma WaitsIff(u: Uart)
    requires Good(u) && u.producer.Poll?
    ensures u.Produce() == u <==> |u.Unsent()| >= 40
  {
  }

  datatype Action = Call(c: Byte) | Access | Hardware

  function Apply(u: Uart, a: Action): Uart
    requires u.InBounds()
  {
    match a
    case Call(c) => u.Offer(c)
    case Access => u.Produce()
    case Hardware => u.Transmit()
  }

  function Exec(u: Uart, actions: seq<Action>): (u': Uart)
    requires u.InBounds()
    ensures u'.InBounds()
    decreases |actions|
  {
    if actions == [] then u else Exec(Apply(u, actions[0]), actions[1..])
  }

  lemma {:induction false} ExecKeepsGood(u: Uart, actions: seq<Action>)
    requires Good(u)
    ensures Good(Exec(u, actions))
    decreases |actions|
  {
    if actions != [] {
      match actions[0] {
        case Call(c) => OfferKeepsGood(u, c);
        case Access => ProduceKeepsGood(u);
        case Hardware => TransmitKeepsGood(u);
      }
      ExecKeepsGood(Apply(u, actions[0]), actions[1..]);
    }
  }

  /** Under every interleaving of the producer's accesses with the hardware: the write pointer
      stays inside the buffer, at most 40 bytes are unsent, and the wire carries the offered
      bytes in order, followed by the buffered ones and the one in the producer's hand. */
  lemma TransmitRing(actions: seq<Action>)
    ensures var u := Exec(Initial(), actions);
            && |u.buf| == 50 && u.tx < 50 && u.wptr == u.tx && |u.Unsent()| <= 40
            && u.wire + u.Unsent() + u.InHand() == u.offered
  {
    assert Initial().Unsent() == [];
    ExecKeepsGood(Initial(), actions);
  }
}
