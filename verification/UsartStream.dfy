/** usart_irq_stream and the output stream on top of it, with calls and interrupts taken one
    after the other (UsartLine has the interrupts that arrive in the middle of a call). */
module UsartStreams {
  import opened Queue
  import opened RingBuffers

  class UsartStream {
    const tx: RingBuffer
    const rx: RingBuffer
    const crlf: bool
    var txeie: bool                 // TX-empty interrupt enable
    var rxneie: bool                // receive interrupt enable
    var peie: bool                  // parity error interrupt enable
    var enabled: bool               // the USART enable bit
    var irqEnabled: bool            // the interrupt channel
    ghost var accepted: seq<char>   // all characters accepted for sending since open()
    ghost var sent: seq<char>       // all characters written to the data register
    ghost var received: seq<char>   // all received characters accepted by the rx queue
    ghost var consumed: seq<char>   // all characters read from the rx queue

    /** Both directions conserve characters and their order. */
    ghost predicate Valid()
      reads this, tx, tx.buf, rx, rx.buf
    {
      && tx != rx && tx.buf != rx.buf
      && tx.Valid() && rx.Valid()
      && accepted == sent + tx.Contents()
      && received == consumed + rx.Contents()
    }

    constructor (tx: RingBuffer, rx: RingBuffer, crlf: bool)
      requires tx != rx && tx.buf != rx.buf && tx.Valid() && rx.Valid()
      modifies tx, rx
      ensures Valid() && this.tx == tx && this.rx == rx && this.crlf == crlf
      ensures accepted == [] && received == []
    {
      this.tx, this.rx, this.crlf := tx, rx, crlf;
      txeie, rxneie, peie, enabled, irqEnabled := false, false, false, false, false;
      accepted, sent, received, consumed := [], [], [], [];
      new;
      tx.Reset();
      rx.Reset();
    }

    /** open(): both queues are reset, and the account of characters starts again; the device, its
        interrupt channel and the receive and parity error interrupts are enabled, the TX-empty
        interrupt is left as it was. */
    method Open()
      requires Valid()
      modifies this, tx, rx
      ensures Valid() && accepted == [] && received == [] && tx.Contents() == [] && rx.Contents() == []
      ensures enabled && irqEnabled && rxneie && peie && txeie == old(txeie)
    {
      tx.Reset();
      rx.Reset();
      accepted, sent, received, consumed := [], [], [], [];
      enabled := true;
      irqEnabled := true;
      EnableInterrupt(true, false, true);
    }

    /** close(): what open() enabled is disabled; the queues keep their contents. */
    method Close()
      requires Valid()
      modifies this`rxneie, this`txeie, this`peie, this`irqEnabled, this`enabled
      ensures Valid() && !enabled && !irqEnabled && !rxneie && !peie && txeie == old(txeie)
    {
      DisableInterrupt(true, false, true);
      irqEnabled := false;
      enabled := false;
    }

    method EnableInterrupt(rxne: bool, txe: bool, pe: bool)
      modifies this`rxneie, this`txeie, this`peie
      ensures rxneie == (old(rxneie) || rxne) && txeie == (old(txeie) || txe) && peie == (old(peie) || pe)
    {
      rxneie, txeie, peie := rxneie || rxne, txeie || txe, peie || pe;
    }

    method DisableInterrupt(rxne: bool, txe: bool, pe: bool)
      modifies this`rxneie, this`txeie, this`peie
      ensures rxneie == (old(rxneie) && !rxne) && txeie == (old(txeie) && !txe) && peie == (old(peie) && !pe)
    {
      rxneie, txeie, peie := rxneie && !rxne, txeie && !txe, peie && !pe;
    }

    /** flush(): enable the TX-empty interrupt. */
    method Flush()
      requires Valid()
      modifies this`txeie
      ensures Valid() && txeie
    {
      txeie := true;
    }

    /** The receive branch of the interrupt routine: what the rx queue does not accept is lost. */
    method ReceiveBranch(data: char)
      requires Valid()
      modifies this`received, rx`writeIndex, rx.buf
      ensures Valid()
      ensures var (ok, q) := Offer(old(rx.Contents()), [data], rx.size - 1);
              rx.Contents() == q && received == old(received) + (if ok then [data] else [])
    {
      hide RingBuffer.Contents;
      var ok := rx.Push(data);
      if ok {
        received := received + [data];
      }
    }

    /** The transmit branch: send the oldest waiting character, or switch the interrupt off. */
    method TransmitBranch()
      requires Valid()
      modifies this`sent, this`txeie, tx`readIndex
      ensures Valid()
      ensures var q := old(tx.Contents());
              if q == [] then sent == old(sent) && tx.Contents() == [] && !txeie
              else sent == old(sent) + [q[0]] && tx.Contents() == q[1..] && txeie == old(txeie)
    {
      hide RingBuffer.Contents;
      var ok, c := tx.Pop();
      if ok {
        sent := sent + [c];
      } else {
        txeie := false;
      }
    }

    /** The interrupt routine, entered with the given RXNE and TXE flags and data register. */
    method Isr(rxne: bool, data: char, txe: bool)
      requires Valid()
      modifies this`received, this`sent, this`txeie, rx`writeIndex, rx.buf, tx`readIndex
      ensures Valid()
      ensures !rxne ==> rx.Contents() == old(rx.Contents()) && received == old(received)
      ensures rxne ==>
                var (ok, q) := Offer(old(rx.Contents()), [data], rx.size - 1);
                rx.Contents() == q && received == old(received) + (if ok then [data] else [])
      ensures !txe ==> tx.Contents() == old(tx.Contents()) && sent == old(sent) && txeie == old(txeie)
      ensures txe ==>
                var q := old(tx.Contents());
                if q == [] then sent == old(sent) && tx.Contents() == [] && !txeie
                else sent == old(sent) + [q[0]] && tx.Contents() == q[1..] && txeie == old(txeie)
    {
      hide RingBuffer.Contents;
      if rxne {
        ReceiveBranch(data);
      }
      if txe {
        TransmitBranch();
      }
    }

    /** The main program's rx_fifo.pop(). */
    method Receive() returns (ok: bool, c: char)
      requires Valid()
      modifies this`consumed, rx
      ensures Valid() && received == old(received)
      ensures ok <==> old(rx.Contents()) != []
      ensures old(rx.Contents()) == if ok then [c] + rx.Contents() else rx.Contents()
      ensures consumed == old(consumed) + (if ok then [c] else [])
    {
      hide RingBuffer.Contents;
      ok, c := rx.Pop();
      if ok {
        consumed := consumed + [c];
      }
    }
  }

  class FifoStream {
    const dev: UsartStream

    constructor (dev: UsartStream)
      ensures this.dev == dev
    {
      this.dev := dev;
    }

    /** What every output operation does: it offers the blocks to the tx queue, in order, and
        what is accepted is appended to the stream. */
    twostate predicate Offers(blocks: seq<seq<char>>)
      reads dev, dev.tx, dev.tx.buf, dev.rx, dev.rx.buf
      requires dev.tx.Valid() && old(dev.tx.Valid())
    {
      var s := Accepted(old(dev.tx.Contents()), blocks, dev.tx.size - 1);
      && dev.accepted == old(dev.accepted) + s
      && dev.tx.Contents() == old(dev.tx.Contents()) + s
      && dev.sent == old(dev.sent)
    }

    method Put(c: char)
      requires dev.Valid()
      modifies dev`accepted, dev.tx`writeIndex, dev.tx.buf
      ensures dev.Valid() && Offers([[c]])
    {
      hide RingBuffer.Contents, Accepted, Offer, CString;
      AcceptedOne(dev.tx.Contents(), [c], dev.tx.size - 1);
      var ok := dev.tx.Push(c);
      if ok {
        dev.accepted := dev.accepted + [c];
      }
    }

    method Write(s: seq<char>, count: nat)
      requires dev.Valid() && count <= |s|
      modifies dev`accepted, dev.tx`writeIndex, dev.tx.buf
      ensures dev.Valid() && Offers([s[..count]])
    {
      hide RingBuffer.Contents, Accepted, Offer, CString;
      AcceptedOne(dev.tx.Contents(), s[..count], dev.tx.size - 1);
      var ok := dev.tx.PushsCount(s, count);
      if ok {
        dev.accepted := dev.accepted + s[..count];
      }
    }

    method Puts(s: seq<char>)
      requires dev.Valid() && '\0' in s
      modifies dev`accepted, dev.tx`writeIndex, dev.tx.buf
      ensures dev.Valid() && Offers([CString(s)])
    {
      hide RingBuffer.Contents, Accepted, Offer, CString;
      AcceptedOne(dev.tx.Contents(), CString(s), dev.tx.size - 1);
      var ok := dev.tx.Pushs(s);
      if ok {
        dev.accepted := dev.accepted + CString(s);
      }
    }

    method Endl()
      requires dev.Valid()
      modifies dev`accepted, dev`txeie, dev.tx`writeIndex, dev.tx.buf
      ensures dev.Valid() && Offers(if dev.crlf then [['\r'], ['\n']] else [['\n']])
      ensures dev.txeie
    {
      hide RingBuffer.Contents, Accepted;
      ghost var q, cr := dev.tx.Contents(), if dev.crlf then [['\r']] else [];
      ghost var s := Accepted(q, cr, dev.tx.size - 1);
      AcceptedNone(q, dev.tx.size - 1);
      if dev.crlf {
        Put('\r');
      }
      ghost var a := dev.accepted;
      assert dev.tx.Contents() == q + s && a == old(dev.accepted) + s;
      Put('\n');
      AcceptedAppend(q, cr, [['\n']], dev.tx.size - 1);
      Associative(old(dev.accepted), s, Accepted(q + s, [['\n']], dev.tx.size - 1));
      Associative(q, s, Accepted(q + s, [['\n']], dev.tx.size - 1));
      assert cr + [['\n']] == if dev.crlf then [['\r'], ['\n']] else [['\n']];
      dev.Flush();
    }
  }
}
