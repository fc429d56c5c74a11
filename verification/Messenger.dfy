/** One direction of a two-sided messenger: the sender's wrapping buffer, the receiver's slots, and the queue pair
    between them. Sender, receiver and adapter take their steps in any order. */
module Messenger {
  import opened MachineWords

  // ---------------------------------------------------------------------------------------------------------------
  // Slots of m bytes in a receive buffer of h bytes
  // ---------------------------------------------------------------------------------------------------------------

  function SlotCount(h: nat, m: nat): (k: nat)
    requires m > 0
    ensures k > 0 <==> m <= h
  {
    h / m
  }

  lemma {:induction false} SlotOrder(a: nat, b: nat, m: nat)
    requires a < b
    ensures a * m + m <= b * m
  {
    assert b * m == (b - 1) * m + m;
    if a + 1 < b {
      SlotOrder(a, b - 1, m);
    }
  }

  /** A slot starts at or before h - m exactly when it is one of the slots that fit. */
  lemma SlotFits(i: nat, h: nat, m: nat)
    requires 0 < m <= h
    ensures i * m <= h - m <==> i < SlotCount(h, m)
  {
    var k := SlotCount(h, m);
    assert h == k * m + h % m;
    if i < k {
      SlotOrder(i, k, m);
    } else if i > k {
      SlotOrder(k, i, m);
    }
  }

  /** The offsets of the slots from number `from` on. */
  function Slots(from: nat, to: nat, m: nat): (s: seq<nat>)
    requires from <= to
    ensures |s| == to - from
  {
    seq(to - from, i requires 0 <= i < to - from => (from + i) * m)
  }

  function Overwrite(memory: seq<byte>, at: nat, data: seq<byte>): (r: seq<byte>)
    requires at + |data| <= |memory|
    ensures |r| == |memory|
  {
    memory[..at] + data + memory[at + |data|..]
  }

  lemma OverwriteElsewhere(memory: seq<byte>, at: nat, data: seq<byte>, lo: nat, hi: nat)
    requires at + |data| <= |memory| && lo <= hi <= |memory| && (hi <= at || at + |data| <= lo)
    ensures Overwrite(memory, at, data)[lo..hi] == memory[lo..hi]
  {
  }

  lemma OverwriteHere(memory: seq<byte>, at: nat, data: seq<byte>)
    requires at + |data| <= |memory|
    ensures Overwrite(memory, at, data)[at..at + |data|] == data
  {
  }

  /** Where slot i of a buffer at `base` starts. */
  function SlotAt(base: nat, m: nat, i: nat): nat {
    base + i * m
  }

  lemma SlotAtOrder(base: nat, m: nat, a: nat, b: nat)
    requires a < b
    ensures SlotAt(base, m, a) + m <= SlotAt(base, m, b)
  {
    SlotOrder(a, b, m);
  }

  ghost predicate SlotHolds(memory: seq<byte>, at: nat, m: nat, msg: seq<byte>) {
    |msg| < m && at + m <= |memory| && memory[at..at + |msg|] == msg
  }

  /** The messages lie unread in the slots from number j on. */
  ghost predicate SlotsHold(memory: seq<byte>, base: nat, m: nat, j: nat, unread: seq<seq<byte>>) {
    forall i | 0 <= i < |unread| :: SlotHolds(memory, SlotAt(base, m, j + i), m, unread[i])
  }

  lemma FillElsewhere(memory: seq<byte>, at: nat, data: seq<byte>, lo: nat, m: nat, msg: seq<byte>)
    requires at + |data| <= |memory| && SlotHolds(memory, lo, m, msg) && lo + m <= at
    ensures SlotHolds(Overwrite(memory, at, data), lo, m, msg)
  {
    OverwriteElsewhere(memory, at, data, lo, lo + |msg|);
  }

  /** Filling the next slot leaves the unread messages as they are. */
  lemma FillNextSlot(memory: seq<byte>, base: nat, m: nat, j: nat, unread: seq<seq<byte>>, msg: seq<byte>)
    requires SlotsHold(memory, base, m, j, unread) && |msg| < m
    requires SlotAt(base, m, j + |unread|) + m <= |memory|
    ensures SlotsHold(Overwrite(memory, SlotAt(base, m, j + |unread|), msg), base, m, j, unread + [msg])
  {
    hide Overwrite, SlotAt;
    var at := SlotAt(base, m, j + |unread|);
    OverwriteHere(memory, at, msg);
    forall i | 0 <= i < |unread|
      ensures SlotHolds(Overwrite(memory, at, msg), SlotAt(base, m, j + i), m, unread[i])
    {
      hide SlotHolds;
      SlotAtOrder(base, m, j + i, j + |unread|);
      FillElsewhere(memory, at, msg, SlotAt(base, m, j + i), m, unread[i]);
    }
  }

  lemma ReadFirstSlot(memory: seq<byte>, base: nat, m: nat, j: nat, unread: seq<seq<byte>>)
    requires SlotsHold(memory, base, m, j, unread) && unread != []
    ensures SlotHolds(memory, SlotAt(base, m, j), m, unread[0])
    ensures SlotsHold(memory, base, m, j + 1, unread[1..])
  {
    assert SlotAt(base, m, j + 0) == SlotAt(base, m, j);
    hide SlotAt, SlotHolds;
    forall i | 0 <= i < |unread[1..]|
      ensures SlotHolds(memory, SlotAt(base, m, j + 1 + i), m, unread[1..][i])
    {
      assert unread[1..][i] == unread[i + 1] && j + (i + 1) == j + 1 + i;
    }
  }

  // ---------------------------------------------------------------------------------------------------------------
  // The receiver
  // ---------------------------------------------------------------------------------------------------------------

  /** The receiver after n deliveries, with a buffer of h bytes at h in its memory and the first `posted` slots posted in
      this round: the oldest unread message is in slot n % k, the other unread ones follow, and the slots after them
      are those still to be filled, in order. */
  ghost predicate ReceiverInv(n: nat, h: nat, m: nat, posted: nat, receives: seq<nat>, completions: seq<nat>,
                              memory: seq<byte>, unread: seq<seq<byte>>)
    requires 0 < m <= h
  {
    var k := SlotCount(h, m);
    var j := n % k;
    && |memory| == 2 * h
    && j + |unread| <= posted <= k && receives == Slots(j + |unread|, posted, m)
    && |completions| == |unread| && (forall i | 0 <= i < |unread| :: completions[i] == |unread[i]|)
    && SlotsHold(memory, h, m, j, unread)
  }

  /** Reading, or in the loop that posts the slots again after the message before was read. */
  datatype Receiver = Reading | Posting(curr: nat, msg: seq<byte>)

  /** The pointer of the receiver is at the oldest unread message; while slots are posted again, that of the loop is at
      the first one that is not posted yet. */
  ghost predicate PointersInv(n: nat, h: nat, m: nat, posted: nat, receiver: Receiver, next: nat)
    requires 0 < m <= h
  {
    var k := SlotCount(h, m);
    match receiver
    case Reading => posted == k && next == (n % k) * m
    case Posting(curr, _) => n % k == 0 && curr == posted * m
  }

  lemma ReceiverShape(n: nat, h: nat, m: nat, posted: nat, receives: seq<nat>, completions: seq<nat>,
                      memory: seq<byte>, unread: seq<seq<byte>>)
    requires 0 < m <= h
    requires ReceiverInv(n, h, m, posted, receives, completions, memory, unread)
    ensures |completions| == |unread| && posted <= SlotCount(h, m)
    ensures unread == [] && posted == SlotCount(h, m) ==> receives != []
  {
  }

  lemma SlotInside(i: nat, h: nat, m: nat)
    requires 0 < m <= h && i < SlotCount(h, m)
    ensures SlotAt(h, m, i) == h + i * m && SlotAt(h, m, i) + m <= 2 * h
  {
    SlotFits(i, h, m);
  }

  /** The adapter puts a message into the first posted slot, which is none that holds an unread message. */
  lemma TransmitStep(n: nat, h: nat, m: nat, posted: nat, receives: seq<nat>, completions: seq<nat>,
                     memory: seq<byte>, unread: seq<seq<byte>>, msg: seq<byte>)
    requires 0 < m <= h && |msg| < m && receives != []
    requires ReceiverInv(n, h, m, posted, receives, completions, memory, unread)
    ensures h + receives[0] + m <= |memory|
    ensures ReceiverInv(n, h, m, posted, receives[1..], completions + [|msg|],
                        Overwrite(memory, h + receives[0], msg), unread + [msg])
  {
    var j := n % SlotCount(h, m);
    SlotInside(j + |unread|, h, m);
    FillNextSlot(memory, h, m, j, unread, msg);
    assert receives[1..] == Slots(j + |unread| + 1, posted, m);
  }

  /** Posting one more slot, also while messages arrive in those posted before it. */
  lemma PostStep(n: nat, h: nat, m: nat, posted: nat, receiver: Receiver, next: nat, receives: seq<nat>,
                 completions: seq<nat>, memory: seq<byte>, unread: seq<seq<byte>>)
    requires 0 < m <= h && receiver.Posting? && receiver.curr <= h - m
    requires PointersInv(n, h, m, posted, receiver, next)
    requires ReceiverInv(n, h, m, posted, receives, completions, memory, unread)
    ensures PointersInv(n, h, m, posted + 1, Posting(receiver.curr + m, receiver.msg), next)
    ensures ReceiverInv(n, h, m, posted + 1, receives + [receiver.curr], completions, memory, unread)
  {
    SlotFits(posted, h, m);
    var i := n % SlotCount(h, m) + |unread|;
    assert (posted + 1) * m == posted * m + m;
    assert Slots(i, posted + 1, m) == Slots(i, posted, m) + [posted * m];
  }

  lemma NextRemainder(n: nat, k: nat)
    requires k > 0
    ensures (n + 1) % k == if n % k == k - 1 then 0 else n % k + 1
  {
    if n % k == k - 1 {
      assert n + 1 == k * (n / k + 1);
      RemainderIs(n + 1, k, n / k + 1, 0);
    } else {
      RemainderIs(n + 1, k, n / k, n % k + 1);
    }
  }

  /** Reading at `next` yields the oldest unread message; it is the last slot exactly when nothing is left posted or
      unread, and then posting all slots again can start. */
  lemma DeliverStep(n: nat, h: nat, m: nat, posted: nat, next: nat, receives: seq<nat>, completions: seq<nat>,
                    memory: seq<byte>, unread: seq<seq<byte>>)
    requires 0 < m <= h && completions != [] && PointersInv(n, h, m, posted, Reading, next)
    requires ReceiverInv(n, h, m, posted, receives, completions, memory, unread)
    ensures unread != [] && completions[0] == |unread[0]|
    ensures h + next + completions[0] <= |memory| && memory[h + next..h + next + completions[0]] == unread[0]
    ensures next + m > h - m <==> (n + 1) % SlotCount(h, m) == 0
    ensures next + m > h - m ==>
              receives == [] && |unread| == 1 && ReceiverInv(n + 1, h, m, 0, [], completions[1..], memory, unread[1..])
    ensures next + m <= h - m ==>
              && ReceiverInv(n + 1, h, m, posted, receives, completions[1..], memory, unread[1..])
              && PointersInv(n + 1, h, m, posted, Reading, next + m)
  {
    var k, j := SlotCount(h, m), n % SlotCount(h, m);
    ReadFirstSlot(memory, h, m, j, unread);
    assert SlotAt(h, m, j) == h + next && (j + 1) * m == next + m;
    SlotFits(j + 1, h, m);
    NextRemainder(n, k);
  }

  // ---------------------------------------------------------------------------------------------------------------
  // The count of received messages wraps around at 2^32
  // ---------------------------------------------------------------------------------------------------------------

  /** A 32-bit counter. */
  function Wrapped(n: nat): nat {
    n % TWO_TO_THE_32
  }

  /** What PrepareRecvBuffer asserts of the counter of deliveries. */
  predicate CountLooksDrained(total: nat, k: nat)
    requires k > 0
  {
    total % k == 0
  }

  /** The n-th delivery reads the last slot, and the assertion fails. */
  predicate RefillFails(n: nat, k: nat)
    requires k > 0
  {
    n % k == 0 && !CountLooksDrained(Wrapped(n), k)
  }

  lemma MultipleOf(n: nat, q: nat, k: nat)
    requires k > 0 && n == q * k
    ensures n % k == 0
  {
    assert n == k * q + 0;
    RemainderIs(n, k, q, 0);
  }

  lemma RemainderIs(n: nat, k: nat, q: nat, r: nat)
    requires k > 0 && n == k * q + r && r < k
    ensures n % k == r && n / k == q
  {
    var d := n / k - q;
    assert n == k * (n / k) + n % k;
    assert k * d == k * (n / k) - k * q;
    assert d == 0;
  }

  /** The assertion never fails, however long the run, exactly when the number of slots divides 2^32. */
  lemma AssertionHoldsForever(k: nat)
    requires 0 < k <= TWO_TO_THE_32
    ensures (forall n: nat :: !RefillFails(n, k)) <==> TWO_TO_THE_32 % k == 0
  {
    if TWO_TO_THE_32 % k == 0 {
      forall n: nat
        ensures !RefillFails(n, k)
      {
        DividedNeverFails(n, k);
      }
    } else {
      WrappedCount(k);
    }
  }

  lemma DividedNeverFails(n: nat, k: nat)
    requires k > 0
    ensures TWO_TO_THE_32 % k == 0 ==> !RefillFails(n, k)
  {
    if TWO_TO_THE_32 % k == 0 && n % k == 0 {
      DividedCountDrains(n, k);
    }
  }

  lemma DividedCountDrains(n: nat, k: nat)
    requires k > 0 && TWO_TO_THE_32 % k == 0 && n % k == 0
    ensures CountLooksDrained(Wrapped(n), k)
  {
    var q, a, w := TWO_TO_THE_32 / k, n / k, n / TWO_TO_THE_32;
    assert TWO_TO_THE_32 == q * k && n == a * k;
    assert w * TWO_TO_THE_32 == w * q * k;
    assert n % TWO_TO_THE_32 == (a - w * q) * k;
    assert a - w * q >= 0;
    MultipleOf(n % TWO_TO_THE_32, a - w * q, k);
  }

  /** The assertion fails for the first time at the first drained count after the wrap. */
  lemma WrappedCount(k: nat)
    requires 0 < k <= TWO_TO_THE_32 && TWO_TO_THE_32 % k != 0
    ensures var n := TWO_TO_THE_32 + (k - TWO_TO_THE_32 % k);
            RefillFails(n, k) && forall i: nat | i < n :: !RefillFails(i, k)
  {
    var r, q := TWO_TO_THE_32 % k, TWO_TO_THE_32 / k;
    var n := TWO_TO_THE_32 + (k - r);
    assert TWO_TO_THE_32 == q * k + r;
    assert n == (q + 1) * k;
    MultipleOf(n, q + 1, k);
    RemainderIs(n, TWO_TO_THE_32, 1, k - r);
    RemainderIs(k - r, k, 0, k - r);
    forall i: nat | i < n
      ensures !RefillFails(i, k)
    {
      if TWO_TO_THE_32 <= i {
        RemainderIs(i, k, q, i - q * k);
      }
    }
  }

  // ---------------------------------------------------------------------------------------------------------------
  // The two ends and their queue pair
  // ---------------------------------------------------------------------------------------------------------------

  /** The sender's work request: none, posted to the adapter, or completed but not yet polled. */
  datatype Sending = Idle | Posted(at: nat, length: nat) | Completed(length: nat)

  datatype Delivery = Unavailable | Delivered(msg: seq<byte>) | Refilling | AssertionFailed

  /** What goes on beside the receiver: a send, the adapter's move, or the poll that ends a send. */
  datatype Step = Send(msg: seq<byte>) | Move | Poll

  /** Every message sent is delivered, or unread in a slot, or waiting to be moved, in the order of sending. */
  ghost predicate Passed(sent: seq<seq<byte>>, delivered: seq<seq<byte>>, unread: seq<seq<byte>>,
                         waiting: seq<seq<byte>>)
  {
    sent == delivered + unread + waiting
  }

  lemma PassOn(sent: seq<seq<byte>>, delivered: seq<seq<byte>>, unread: seq<seq<byte>>, waiting: seq<seq<byte>>,
               msg: seq<byte>)
    requires Passed(sent, delivered, unread, waiting)
    ensures waiting == [] ==> Passed(sent + [msg], delivered, unread, [msg])
    ensures waiting == [msg] ==> Passed(sent, delivered, unread + [msg], [])
    ensures unread != [] && unread[0] == msg ==> Passed(sent, delivered + [msg], unread[1..], waiting)
  {
    if waiting == [msg] {
      assert delivered + unread + [msg] == delivered + (unread + [msg]) + [];
    }
    if unread != [] && unread[0] == msg {
      assert unread == [msg] + unread[1..];
      assert delivered + unread + waiting == (delivered + [msg]) + unread[1..] + waiting;
    }
  }

  /** A message being sent lies at sendNext, inside the send buffer. */
  ghost predicate SenderInv(sendNext: nat, sending: Sending, h: nat, m: nat) {
    && sendNext <= h
    && (sending.Posted? ==> sending.at == sendNext && sendNext + sending.length <= h && sending.length < m)
    && (sending.Completed? ==> sendNext + sending.length <= h)
  }

  /** The message in the send buffer that the adapter has not moved yet. */
  function Waiting(sending: Sending, memory: seq<byte>): seq<seq<byte>> {
    if sending.Posted? && sending.at + sending.length <= |memory|
    then [memory[sending.at..sending.at + sending.length]] else []
  }

  class Channel {
    /** The capacities of the send and the receive buffer, one after the other in the memory. */
    const half: nat
    const recvMaxBytes: nat
    const sendMemory: array<byte>
    const recvMemory: array<byte>
    var sendNext: nat
    var sending: Sending
    var receiver: Receiver
    var recvNext: nat
    var recvTotal: nat
    /** Posted receives, by offset, and completed ones, by length. */
    var receiveQueue: seq<nat>
    var completions: seq<nat>
    ghost var posted: nat
    ghost var sent: seq<seq<byte>>
    ghost var delivered: seq<seq<byte>>
    ghost var unread: seq<seq<byte>>

    ghost predicate Configured() {
      && 0 < recvMaxBytes <= half
      && sendMemory != recvMemory && sendMemory.Length == recvMemory.Length == 2 * half
    }

    /** The channel as it is, but with the receiver in that state. */
    ghost predicate ValidAs(posted: nat, receiver: Receiver)
      reads this, sendMemory, recvMemory
    {
      && Configured()
      && SenderInv(sendNext, sending, half, recvMaxBytes)
      && Passed(sent, delivered, unread, Waiting(sending, sendMemory[..]))
      && recvTotal == Wrapped(|delivered|)
      && PointersInv(|delivered|, half, recvMaxBytes, posted, receiver, recvNext)
      && ReceiverInv(|delivered|, half, recvMaxBytes, posted, receiveQueue, completions, recvMemory[..], unread)
    }

    ghost predicate Valid()
      reads this, sendMemory, recvMemory
    {
      ValidAs(posted, receiver)
    }

    /** The queue pair may be connected already, so that others take steps while the slots are posted. */
    constructor (capacity: nat, recvMaxBytes: nat, others: seq<seq<Step>>)
      requires capacity % 2 == 0 && 0 < recvMaxBytes <= capacity / 2
      ensures Valid() && fresh(sendMemory) && fresh(recvMemory)
      ensures half == capacity / 2 && this.recvMaxBytes == recvMaxBytes
      ensures receiver == Reading && delivered == []
      ensures others == [] ==> sent == unread == [] && sendNext == 0 && sending == Idle
    {
      half, this.recvMaxBytes := capacity / 2, recvMaxBytes;
      sendMemory := new byte[capacity];
      recvMemory := new byte[capacity];
      sendNext, sending, receiver, recvNext, recvTotal := 0, Idle, Posting(0, []), 0, 0;
      receiveQueue, completions, posted, sent, delivered, unread := [], [], 0, [], [], [];
      new;
      var _ := PostSlots(others);
    }

    /** Where a message of this length goes: the buffer starts over when it would not fit. */
    function Place(length: nat): nat
      reads this`sendNext
    {
      if sendNext + length > half then 0 else sendNext
    }

    /** What a send leaves, seen before it. */
    lemma PostAhead(msg: seq<byte>)
      requires Valid() && sending == Idle && |msg| < recvMaxBytes
      ensures var at, memory, next := Place(|msg|), sendMemory[..], Posted(Place(|msg|), |msg|);
              && at + |msg| <= half
              && Overwrite(memory, at, msg)[half..] == memory[half..]
              && SenderInv(at, next, half, recvMaxBytes)
              && Waiting(next, Overwrite(memory, at, msg)) == [msg]
              && Passed(sent + [msg], delivered, unread, Waiting(next, Overwrite(memory, at, msg)))
    {
      var at, memory := Place(|msg|), sendMemory[..];
      PassOn(sent, delivered, unread, Waiting(sending, memory), msg);
      hide ReceiverInv, PointersInv, Passed, Overwrite;
      OverwriteHere(memory, at, msg);
      OverwriteElsewhere(memory, at, msg, half, |memory|);
    }

    /** The first half of SendMessage, up to ibv_post_send. */
    method PostMessage(msg: seq<byte>) returns (ok: bool)
      requires Valid() && sending == Idle
      modifies this`sendNext, this`sending, this`sent, sendMemory
      ensures Valid() && ok == (|msg| < recvMaxBytes)
      ensures ok ==> sent == old(sent) + [msg] && sending == Posted(sendNext, |msg|)
      ensures ok ==> sendNext == if old(sendNext) + |msg| <= half then old(sendNext) else 0
      ensures ok ==> Waiting(sending, sendMemory[..]) == [msg]
      ensures !ok ==> sent == old(sent) && sending == Idle && sendNext == old(sendNext)
      ensures sendMemory[half..] == old(sendMemory[half..])
    {
      ok := |msg| < recvMaxBytes;
      if ok {
        PostAhead(msg);
        hide ReceiverInv, PointersInv, SenderInv, Passed, Overwrite, Waiting;
        var tail, end := sendNext + |msg|, half;
        if tail > end {
          sendNext := 0;
        }
        CopyInto(sendMemory, sendNext, msg);
        sending := Posted(sendNext, |msg|);
        sent := sent + [msg];
      }
    }

    lemma PostedIsPassed(msg: seq<byte>)
      requires Valid() && sending.Posted?
      requires msg == sendMemory[sending.at..sending.at + sending.length]
      ensures Waiting(sending, sendMemory[..]) == [msg]
      ensures Passed(sent, delivered, unread + [msg], Waiting(Completed(|msg|), sendMemory[..]))
      ensures SenderInv(sendNext, Completed(|msg|), half, recvMaxBytes) && |msg| < recvMaxBytes
    {
      hide Passed, ReceiverInv, PointersInv, Wrapped;
      assert Waiting(sending, sendMemory[..]) == [msg];
      PassOn(sent, delivered, unread, [msg], msg);
    }

    /** What the adapter leaves in the receive buffer, seen before it moves a message. */
    lemma TransmitAhead(msg: seq<byte>, memory: seq<byte>)
      requires Valid() && receiveQueue != [] && memory == recvMemory[..] && |msg| < recvMaxBytes
      ensures var h, m := half, recvMaxBytes;
              && h + receiveQueue[0] + |msg| <= |memory|
              && Overwrite(memory, h + receiveQueue[0], msg)[..h] == memory[..h]
              && ReceiverInv(|delivered|, h, m, posted, receiveQueue[1..], completions + [|msg|],
                             Overwrite(memory, h + receiveQueue[0], msg), unread + [msg])
    {
      hide Passed, Overwrite, ReceiverInv, PointersInv, SenderInv, Wrapped, Waiting;
      TransmitStep(|delivered|, half, recvMaxBytes, posted, receiveQueue, completions, memory, unread, msg);
      OverwriteElsewhere(memory, half + receiveQueue[0], msg, 0, half);
    }

    /** The adapter fills the first posted slot and completes its receive. */
    method Fill(msg: seq<byte>)
      requires Valid() && receiveQueue != [] && |msg| < recvMaxBytes
      modifies this`receiveQueue, this`completions, this`unread, recvMemory
      ensures unread == old(unread) + [msg] && |completions| == |old(completions)| + 1
      ensures recvMemory[..half] == old(recvMemory[..half])
      ensures ReceiverInv(|delivered|, half, recvMaxBytes, posted, receiveQueue, completions, recvMemory[..], unread)
    {
      hide ReceiverInv, PointersInv, SenderInv, Overwrite, Passed, Waiting, Wrapped;
      TransmitAhead(msg, recvMemory[..]);
      CopyInto(recvMemory, half + receiveQueue[0], msg);
      receiveQueue := receiveQueue[1..];
      completions := completions + [|msg|];
      unread := unread + [msg];
    }

    /** The adapter moves the posted message into the first posted slot. */
    method Transmit()
      requires Valid() && sending.Posted? && receiveQueue != []
      modifies this`sending, this`receiveQueue, this`completions, this`unread, recvMemory
      ensures Valid() && sending == Completed(old(sending.length))
      ensures unread == old(unread) + old(Waiting(sending, sendMemory[..]))
      ensures |completions| == |old(completions)| + 1
      ensures recvMemory[..half] == old(recvMemory[..half])
    {
      var msg := sendMemory[sending.at..sending.at + sending.length];
      PostedIsPassed(msg);
      hide ReceiverInv, PointersInv, SenderInv, Passed, Waiting, Wrapped;
      Fill(msg);
      sending := Completed(|msg|);
    }

    /** The second half of SendMessage, once the send completion is polled. */
    method FinishSend()
      requires Valid() && sending.Completed?
      modifies this`sendNext, this`sending
      ensures Valid() && sending == Idle && sendNext == old(sendNext) + old(sending.length)
    {
      hide ReceiverInv, PointersInv, Passed;
      sendNext := sendNext + sending.length;
      sending := Idle;
    }

    /** Sender and adapter take their turns; one that has nothing to do lets its turn pass. */
    method Others(steps: seq<Step>)
      requires Valid()
      modifies this`sendNext, this`sending, this`sent, this`receiveQueue, this`completions, this`unread
      modifies sendMemory, recvMemory
      ensures Valid() && old(sent) <= sent
    {
      hide ReceiverInv, PointersInv, SenderInv, Passed, Channel.Valid;
      for i := 0 to |steps|
        invariant Valid() && old(sent) <= sent
      {
        match steps[i]
        case Send(msg) =>
          if sending == Idle {
            var ok := PostMessage(msg);
          }
        case Move =>
          if sending.Posted? && receiveQueue != [] {
            Transmit();
          }
        case Poll =>
          if sending.Completed? {
            FinishSend();
          }
      }
    }

    /** What a delivery finds and leaves, seen before it. */
    lemma DeliverAhead()
      requires Valid() && receiver == Reading
      ensures completions == [] <==> unread == []
      ensures completions != [] ==>
                var n, h, m, msg, memory, last := |delivered|, half, recvMaxBytes, unread[0], recvMemory[..],
                                                  recvNext + recvMaxBytes > half - recvMaxBytes;
                && h + recvNext + completions[0] <= recvMemory.Length
                && recvMemory[h + recvNext..h + recvNext + completions[0]] == msg
                && (last && !CountLooksDrained(Wrapped(recvTotal + 1), SlotCount(h, m))
                    <==> RefillFails(n + 1, SlotCount(h, m)))
                && (last ==> && ReceiverInv(n + 1, h, m, 0, receiveQueue, completions[1..], memory, unread[1..])
                             && PointersInv(n + 1, h, m, 0, Posting(0, msg), recvNext + m))
                && (!last ==> && ReceiverInv(n + 1, h, m, posted, receiveQueue, completions[1..], memory, unread[1..])
                              && PointersInv(n + 1, h, m, posted, Reading, recvNext + m))
                && Passed(sent, delivered + [msg], unread[1..], Waiting(sending, sendMemory[..]))
                && Wrapped(recvTotal + 1) == Wrapped(n + 1)
    {
      ReceiverShape(|delivered|, half, recvMaxBytes, posted, receiveQueue, completions, recvMemory[..], unread);
      WrappedStep(|delivered|);
      hide Passed, SlotsHold, ReceiverInv, SlotCount, CountLooksDrained, Wrapped;
      if completions != [] {
        DeliverStep(|delivered|, half, recvMaxBytes, posted, recvNext, receiveQueue, completions, recvMemory[..],
                    unread);
        PassOn(sent, delivered, unread, Waiting(sending, sendMemory[..]), unread[0]);
      }
    }

    /** Copies the message out of its slot and moves the pointer and the counter on. */
    method ReadSlot() returns (msg: seq<byte>)
      requires Valid() && receiver == Reading && completions != []
      modifies this`recvNext, this`recvTotal, this`completions, this`delivered, this`unread
      ensures old(unread) != [] && msg == old(unread[0])
      ensures delivered == old(delivered) + [msg] && unread == old(unread[1..]) && completions == old(completions[1..])
      ensures recvNext <= half - recvMaxBytes ==> Valid()
      ensures recvNext > half - recvMaxBytes ==> ValidAs(0, Posting(0, msg))
      ensures recvNext > half - recvMaxBytes && !CountLooksDrained(recvTotal, SlotCount(half, recvMaxBytes))
              <==> RefillFails(|delivered|, SlotCount(half, recvMaxBytes))
    {
      DeliverAhead();
      hide ReceiverInv, PointersInv, SenderInv, Passed, Wrapped, CountLooksDrained, RefillFails, SlotCount, Waiting;
      var length := completions[0];
      msg := recvMemory[half + recvNext..half + recvNext + length];
      completions := completions[1..];
      delivered, unread := delivered + [msg], unread[1..];
      recvTotal := Wrapped(recvTotal + 1);
      recvNext := recvNext + recvMaxBytes;
    }

    /** TryDeliverMessage up to the loop of PrepareRecvBuffer, for a queue pair that is not in an error state: a poll
        finds nothing, or takes the message out of its slot, and after the last slot PrepareRecvBuffer looks at the
        counter. */
    method TakeMessage() returns (r: Delivery)
      requires Valid() && receiver == Reading
      modifies this`receiver, this`recvNext, this`recvTotal, this`completions, this`posted, this`delivered, this`unread
      ensures r == Unavailable <==> old(unread) == []
      ensures r == Unavailable <==> old(completions) == []
      ensures r == Unavailable ==> Valid() && delivered == old(delivered) && receiver == Reading
      ensures r != Unavailable ==> completions == old(completions[1..])
      ensures r != Unavailable ==> delivered == old(delivered) + [old(unread[0])] && unread == old(unread[1..])
      ensures r.Delivered? ==> Valid() && receiver == Reading && r.msg == old(unread[0])
      ensures r == Refilling ==> Valid() && receiver == Posting(0, old(unread[0])) && posted == 0
      ensures r == AssertionFailed <==>
                old(unread) != [] && RefillFails(|old(delivered)| + 1, SlotCount(half, recvMaxBytes))
    {
      ReceiverShape(|delivered|, half, recvMaxBytes, posted, receiveQueue, completions, recvMemory[..], unread);
      hide ReceiverInv, PointersInv, SenderInv, Passed, Wrapped, CountLooksDrained, RefillFails, SlotCount, Waiting;
      if completions == [] {
        return Unavailable;
      }
      var msg := ReadSlot();
      if recvNext <= half - recvMaxBytes {
        return Delivered(msg);
      }
      if !CountLooksDrained(recvTotal, SlotCount(half, recvMaxBytes)) {
        return AssertionFailed;
      }
      receiver, posted := Posting(0, msg), 0;
      return Refilling;
    }

    /** One iteration of the loop of PrepareRecvBuffer. */
    method PostSlot()
      requires Valid() && receiver.Posting? && receiver.curr <= half - recvMaxBytes
      modifies this`receiver, this`receiveQueue, this`posted
      ensures Valid() && receiveQueue == old(receiveQueue) + [old(receiver.curr)]
      ensures receiver == Posting(old(receiver.curr) + recvMaxBytes, old(receiver.msg))
      ensures posted == old(posted) + 1 <= SlotCount(half, recvMaxBytes)
    {
      PostStep(|delivered|, half, recvMaxBytes, posted, receiver, recvNext, receiveQueue, completions, recvMemory[..],
               unread);
      hide ReceiverInv, PointersInv, SenderInv, Passed, Wrapped, Waiting;
      receiveQueue := receiveQueue + [receiver.curr];
      receiver := Posting(receiver.curr + recvMaxBytes, receiver.msg);
      posted := posted + 1;
    }

    /** The end of PrepareRecvBuffer: the loop has posted every slot. */
    method FinishRefill() returns (msg: seq<byte>)
      requires Valid() && receiver.Posting? && receiver.curr > half - recvMaxBytes
      modifies this`receiver, this`recvNext
      ensures Valid() && receiver == Reading && recvNext == 0 && msg == old(receiver.msg)
      ensures posted == SlotCount(half, recvMaxBytes)
    {
      SlotFits(posted, half, recvMaxBytes);
      ReceiverShape(|delivered|, half, recvMaxBytes, posted, receiveQueue, completions, recvMemory[..], unread);
      hide ReceiverInv, SenderInv, Passed, Wrapped, Waiting;
      msg := receiver.msg;
      recvNext := 0;
      receiver := Reading;
    }

    /** The loop of PrepareRecvBuffer; before every iteration, sender and adapter take any steps. */
    method PostSlots(others: seq<seq<Step>>) returns (msg: seq<byte>)
      requires Valid() && receiver.Posting?
      modifies this`sendNext, this`sending, this`sent, this`receiveQueue, this`completions, this`unread
      modifies this`receiver, this`recvNext, this`posted, sendMemory, recvMemory
      ensures Valid() && old(sent) <= sent
      ensures receiver == Reading && msg == old(receiver.msg)
      ensures others == [] ==> unread == old(unread) && sent == old(sent)
      ensures others == [] ==> sending == old(sending) && sendNext == old(sendNext)
    {
      assert recvMaxBytes > 0;
      hide ReceiverInv, PointersInv, SenderInv, Passed, Channel.Valid;
      var i := 0;
      while receiver.curr <= half - recvMaxBytes
        invariant Valid() && receiver.Posting? && receiver.msg == old(receiver.msg) && old(sent) <= sent
        invariant others == [] ==> unread == old(unread) && sent == old(sent)
        invariant others == [] ==> sending == old(sending) && sendNext == old(sendNext)
        decreases half - receiver.curr
      {
        if i < |others| {
          Others(others[i]);
        }
        PostSlot();
        i := i + 1;
      }
      msg := FinishRefill();
    }

    /** TryDeliverMessage as a whole, beside any steps of the sender and the adapter: the messages come out as they were
        sent, in order, until the assertion in PrepareRecvBuffer fails. */
    method TryDeliverMessage(others: seq<seq<Step>>) returns (r: Delivery)
      requires Valid() && receiver == Reading
      modifies this, sendMemory, recvMemory
      ensures r == Unavailable <==> old(unread) == []
      ensures r == Unavailable ==> Valid() && receiver == Reading && delivered == old(delivered)
      ensures r.Delivered? ==>
                Valid() && receiver == Reading && delivered == old(delivered) + [r.msg] && old(sent) <= sent
      ensures r == AssertionFailed <==>
                old(unread) != [] && RefillFails(|old(delivered)| + 1, SlotCount(half, recvMaxBytes))
      ensures r != Refilling
    {
      hide ReceiverInv, PointersInv, SenderInv, Passed, Channel.Valid, RefillFails;
      r := TakeMessage();
      if r == Refilling {
        var msg := PostSlots(others);
        r := Delivered(msg);
      }
    }

    /** What is delivered is, byte for byte, what was sent first. */
    lemma DeliveredInOrder()
      requires Valid()
      ensures delivered <= sent && |sent| <= |delivered| + |completions| + 1
      ensures sending == Idle && completions == [] ==> delivered == sent
    {
      ReceiverShape(|delivered|, half, recvMaxBytes, posted, receiveQueue, completions, recvMemory[..], unread);
    }

    /** A message that waits for a posted slot waits only for the receiver to read what it has, or to go on posting. */
    lemma NeverStuck()
      requires Valid() && sending.Posted?
      ensures receiveQueue != [] || completions != [] || (receiver.Posting? && receiver.curr <= half - recvMaxBytes)
    {
      ReceiverShape(|delivered|, half, recvMaxBytes, posted, receiveQueue, completions, recvMemory[..], unread);
      SlotFits(posted, half, recvMaxBytes);
    }

    /** The steps that are left when nobody sends any more. */
    ghost function Work(): nat
      requires Configured()
      reads this`sending, this`completions, this`receiver, this`posted
    {
      WorkOf(SlotCount(half, recvMaxBytes), sending, |completions|, receiver, posted)
    }

    lemma ValidIsConfigured()
      requires Valid()
      ensures Configured()
    {
    }

    /** When nobody can take a step, nothing is under way. */
    lemma RestIsDelivered()
      requires Valid() && (sending.Posted? ==> receiveQueue == []) && !sending.Completed?
      requires receiver == Reading && completions == []
      ensures sending == Idle && delivered == sent
    {
      hide ReceiverInv, PointersInv, SenderInv, Passed, Wrapped, Waiting;
      if sending.Posted? {
        NeverStuck();
      }
      DeliveredInOrder();
    }

    /** Whatever sender, adapter and receiver do next, when nobody sends any more: every step leaves less work, and in the
        end all that was sent is delivered, unless the assertion in PrepareRecvBuffer fails. */
    method RunOut() returns (ok: bool, ghost steps: nat)
      requires Valid()
      modifies this`sendNext, this`sending, this`receiver, this`recvNext, this`recvTotal, this`receiveQueue
      modifies this`completions, this`posted, this`delivered, this`unread, recvMemory
      ensures Configured() && steps <= old(Work())
      ensures ok ==> Valid() && sending == Idle && receiver == Reading && delivered == sent
      ensures !ok ==> RefillFails(|delivered|, SlotCount(half, recvMaxBytes))
      ensures TWO_TO_THE_32 % SlotCount(half, recvMaxBytes) == 0 ==> ok
    {
      hide ReceiverInv, PointersInv, SenderInv, Passed, Wrapped, RefillFails, SlotCount, Waiting, WorkOf, Channel.Valid;
      ValidIsConfigured();
      ghost var k := SlotCount(half, recvMaxBytes);
      ok, steps := true, 0;
      while
        invariant Valid() && ok && steps + Work() <= old(Work())
        decreases Work()
      {
        case sending.Posted? && receiveQueue != [] =>
          MoveWorks(k, sending, |completions|, receiver, posted);
          Transmit();
          steps := steps + 1;
        case sending.Completed? =>
          PollWorks(k, sending, |completions|, receiver, posted);
          FinishSend();
          steps := steps + 1;
        case receiver == Reading && completions != [] =>
          ghost var sending, count, before := sending, |completions|, posted;
          var r := TakeMessage();
          if r == AssertionFailed {
            DividedNeverFails(|delivered|, k);
            return false, steps;
          }
          ReadWorks(k, sending, count, before, receiver, posted);
          steps := steps + 1;
        case receiver.Posting? =>
          ghost var sending, count, from, before := sending, |completions|, receiver, posted;
          if receiver.curr <= half - recvMaxBytes {
            PostSlot();
          } else {
            var _ := FinishRefill();
          }
          PostWorks(k, sending, count, from, before, receiver, posted);
          steps := steps + 1;
      }
      RestIsDelivered();
    }
  }

  /** A message in the send buffer has one step more before it than an unread one, and that is to be read before all k
      slots are posted again. */
  function WorkOf(k: nat, sending: Sending, completions: nat, receiver: Receiver, posted: nat): nat {
    (match sending case Idle => 0 case Posted(_, _) => k + 5 case Completed(_) => 1)
    + completions * (k + 3)
    + (if receiver.Posting? && posted <= k then k - posted + 1 else 0)
  }

  lemma OneMoreUnread(k: nat, completions: nat)
    ensures (completions + 1) * (k + 3) == completions * (k + 3) + k + 3
  {
  }

  lemma MoveWorks(k: nat, sending: Sending, completions: nat, receiver: Receiver, posted: nat)
    requires sending.Posted?
    ensures WorkOf(k, Completed(sending.length), completions + 1, receiver, posted)
          < WorkOf(k, sending, completions, receiver, posted)
  {
    OneMoreUnread(k, completions);
  }

  lemma PollWorks(k: nat, sending: Sending, completions: nat, receiver: Receiver, posted: nat)
    requires sending.Completed?
    ensures WorkOf(k, Idle, completions, receiver, posted) < WorkOf(k, sending, completions, receiver, posted)
  {
  }

  lemma ReadWorks(k: nat, sending: Sending, completions: nat, posted: nat, after: Receiver, postedAfter: nat)
    requires completions > 0 && (after == Reading || postedAfter == 0)
    ensures WorkOf(k, sending, completions - 1, after, postedAfter) < WorkOf(k, sending, completions, Reading, posted)
  {
    OneMoreUnread(k, completions - 1);
  }

  lemma PostWorks(k: nat, sending: Sending, completions: nat, receiver: Receiver, posted: nat, after: Receiver,
                  postedAfter: nat)
    requires receiver.Posting? && posted <= k
    requires (after.Posting? && postedAfter == posted + 1) || (after == Reading && postedAfter == posted)
    ensures WorkOf(k, sending, completions, after, postedAfter) < WorkOf(k, sending, completions, receiver, posted)
  {
  }

  lemma WrappedStep(n: nat)
    ensures Wrapped(Wrapped(n) + 1) == Wrapped(n + 1)
  {
  }

  /** memcpy. */
  method CopyInto(memory: array<byte>, at: nat, data: seq<byte>)
    requires at + |data| <= memory.Length
    modifies memory
    ensures memory[..] == Overwrite(old(memory[..]), at, data)
  {
    forall i | 0 <= i < |data| {
      memory[at + i] := data[i];
    }
  }
}
