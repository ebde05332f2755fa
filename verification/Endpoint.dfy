/**
 An IPC endpoint: a 16-entry ring and two intrusive wait queues that together
 behave as one unbounded first-in first-out queue.
 */
module Endpoint {

  import opened Options
  import opened IntrusiveQueue

  datatype Msg = Msg(a0: nat, a1: nat, a2: nat, badge: nat)

  datatype Choice = ForceSend | ForceReceive | Auto

  const BUFFER_SIZE: nat := 16

  ghost function Payloads(payload: map<nat, Msg>, q: seq<nat>): seq<Msg>
    requires forall i :: 0 <= i < |q| ==> q[i] in payload
  {
    seq(|q|, i requires 0 <= i < |q| => payload[q[i]])
  }

  // ---- The ring ----

  function Slot(n: nat): (k: nat)
    requires n < 2 * BUFFER_SIZE
    ensures k < BUFFER_SIZE && k == n % BUFFER_SIZE
  {
    if n < BUFFER_SIZE then n else n - BUFFER_SIZE
  }

  ghost function RingOf(b: seq<Msg>, head: nat, count: nat): seq<Msg>
    requires |b| == BUFFER_SIZE && head < BUFFER_SIZE && count <= BUFFER_SIZE
  {
    seq(count, i requires 0 <= i < count => b[Slot(head + i)])
  }

  lemma RingPop(b: seq<Msg>, head: nat, count: nat)
    requires |b| == BUFFER_SIZE && head < BUFFER_SIZE && 0 < count <= BUFFER_SIZE
    ensures RingOf(b, head, count) == [b[head]] + RingOf(b, Slot(head + 1), count - 1)
  {
    var rest := RingOf(b, Slot(head + 1), count - 1);
    forall i | 0 <= i < count
      ensures RingOf(b, head, count)[i] == ([b[head]] + rest)[i]
    {
      assert RingOf(b, head, count)[i] == b[Slot(head + i)];
      if 0 < i {
        assert Slot(head + i) == Slot(Slot(head + 1) + (i - 1));
        assert rest[i - 1] == b[Slot(head + i)];
      }
    }
  }

  lemma RingPush(b: seq<Msg>, head: nat, count: nat, m: Msg)
    requires |b| == BUFFER_SIZE && head < BUFFER_SIZE && count < BUFFER_SIZE
    ensures RingOf(b[Slot(head + count) := m], head, count + 1) == RingOf(b, head, count) + [m]
  {
    var b' := b[Slot(head + count) := m];
    forall i | 0 <= i < count
      ensures RingOf(b', head, count + 1)[i] == RingOf(b, head, count)[i]
    {
      assert Slot(head + i) != Slot(head + count);
    }
  }

  lemma LastOne(calls: seq<nat>, caller: nat)
    ensures (calls + [caller])[|calls|..|calls| + 1] == [caller]
  {
  }

  class Endpoint {
    const buffer: array<Msg>
    var head: nat
    var tail: nat
    var count: nat
    var sendHead: Option<nat>
    var sendTail: Option<nat>
    var recvHead: Option<nat>
    var recvTail: Option<nat>

    // Fields of the threads: wait link and message registers, and who is blocked.
    var waitNext: Links
    var payload: map<nat, Msg>
    var blocked: set<nat>

    // All messages sent and all receive calls made, in order, and the messages
    // handed to receivers so far.
    ghost var sent: seq<Msg>
    ghost var receives: seq<nat>
    ghost var delivered: seq<Msg>
    ghost var sendQ: seq<nat>
    ghost var recvQ: seq<nat>

    ghost function Ring(): seq<Msg>
      reads this, buffer
      requires InRange()
    {
      RingOf(buffer[..], head, count)
    }

    // The wait queues: every blocked thread hangs on one of them, and one is always empty.
    ghost predicate Waits()
      reads `waitNext, `sendHead, `sendTail, `recvHead, `recvTail, `blocked, `sendQ, `recvQ
    {
      && Queue(waitNext, sendHead, sendTail, sendQ) && Queue(waitNext, recvHead, recvTail, recvQ)
      && (sendQ == [] || recvQ == [])
      && (forall t {:trigger t in blocked} :: t in blocked <==> t in sendQ || t in recvQ)
    }

    ghost predicate InRange()
      reads `head, `count, `tail
    {
      && buffer.Length == BUFFER_SIZE
      && head < BUFFER_SIZE && count <= BUFFER_SIZE && tail == Slot(head + count)
    }

    ghost predicate Shape()
      reads this
    {
      && InRange()
      && (sendQ != [] ==> count == BUFFER_SIZE) && (recvQ != [] ==> count == 0)
    }

    // What was sent is what was delivered, then the ring, then the blocked senders' messages.
    ghost predicate Logs()
      reads this, buffer
      requires InRange()
    {
      && (forall i :: 0 <= i < |sendQ| ==> sendQ[i] in payload)
      && sent == delivered + Ring() + Payloads(payload, sendQ)
      && |receives| == |delivered| + |recvQ| && receives[|delivered|..] == recvQ
    }

    ghost predicate Valid()
      reads this, buffer
    {
      Waits() && Shape() && Logs()
    }

    constructor ()
      ensures Valid() && sent == [] && receives == [] && delivered == [] && blocked == {}
      ensures fresh(buffer)
    {
      buffer := new Msg[BUFFER_SIZE](_ => Msg(0, 0, 0, 0));
      head, tail, count := 0, 0, 0;
      sendHead, sendTail, recvHead, recvTail := None, None, None, None;
      waitNext, payload, blocked := map[], map[], {};
      sent, receives, delivered, sendQ, recvQ := [], [], [], [], [];
    }

    /** The whole endpoint is one FIFO: what has been handed out is exactly the first
        so many messages sent, as many as there are sends matched by receives; a message
        is held back only when nobody waits for it, and a receiver only when there is none. */
    lemma DeliveredInOrder()
      requires Valid()
      ensures delivered == sent[..if |sent| <= |receives| then |sent| else |receives|]
      ensures |recvQ| == if |receives| <= |sent| then 0 else |receives| - |sent|
      ensures recvQ != [] ==> count == 0 && sendQ == []
      ensures sendQ != [] ==> count == BUFFER_SIZE && recvQ == []
    {
      var pending := Ring() + Payloads(payload, sendQ);
      assert sent == delivered + pending;
    }

    // ---- Wait queues ----

    method PopReceiver() returns (t: nat)
      requires Waits() && recvQ != []
      modifies `recvHead, `recvTail, `recvQ, `blocked
      ensures Waits() && t == old(recvQ)[0] && recvQ == old(recvQ)[1..] && blocked == old(blocked) - {t}
    {
      t := recvHead.value;
      QueuePop(waitNext, recvHead, recvTail, recvQ);
      recvHead := waitNext[t];
      if recvHead.None? {
        recvTail := None;
      }
      blocked := blocked - {t};
      assert recvQ == [t] + recvQ[1..];
      recvQ := recvQ[1..];
    }

    method PopSender() returns (t: nat)
      requires Waits() && sendQ != []
      modifies `sendHead, `sendTail, `sendQ, `blocked
      ensures Waits() && t == old(sendQ)[0] && sendQ == old(sendQ)[1..] && blocked == old(blocked) - {t}
    {
      t := sendHead.value;
      QueuePop(waitNext, sendHead, sendTail, sendQ);
      sendHead := waitNext[t];
      if sendHead.None? {
        sendTail := None;
      }
      blocked := blocked - {t};
      assert sendQ == [t] + sendQ[1..];
      sendQ := sendQ[1..];
    }

    method PushSender(t: nat)
      requires Waits() && t !in blocked && recvQ == []
      modifies `waitNext, `sendHead, `sendTail, `sendQ, `blocked
      ensures Waits() && sendQ == old(sendQ) + [t] && blocked == old(blocked) + {t}
    {
      QueuePush(waitNext, sendHead, sendTail, sendQ, t);
      waitNext := waitNext[t := None];
      if sendHead.None? {
        sendHead := Some(t);
      } else {
        waitNext := waitNext[sendTail.value := Some(t)];
      }
      sendTail := Some(t);
      blocked := blocked + {t};
      sendQ := sendQ + [t];
    }

    method PushReceiver(t: nat)
      requires Waits() && t !in blocked && sendQ == []
      modifies `waitNext, `recvHead, `recvTail, `recvQ, `blocked
      ensures Waits() && recvQ == old(recvQ) + [t] && blocked == old(blocked) + {t}
    {
      QueuePush(waitNext, recvHead, recvTail, recvQ, t);
      waitNext := waitNext[t := None];
      if recvHead.None? {
        recvHead := Some(t);
      } else {
        waitNext := waitNext[recvTail.value := Some(t)];
      }
      recvTail := Some(t);
      blocked := blocked + {t};
      recvQ := recvQ + [t];
    }

    // ---- The ring ----

    method PushRing(m: Msg)
      requires InRange() && count < BUFFER_SIZE
      modifies `tail, `count, buffer
      ensures InRange() && Ring() == old(Ring()) + [m] && count == old(count) + 1
    {
      RingPush(buffer[..], head, count, m);
      ghost var b := buffer[..];
      buffer[tail] := m;
      assert buffer[..] == b[Slot(head + count) := m];
      tail := (tail + 1) % BUFFER_SIZE;
      count := count + 1;
    }

    method PopRing() returns (m: Msg)
      requires InRange() && 0 < count
      modifies `head, `count
      ensures InRange() && old(Ring()) == [m] + Ring() && count == old(count) - 1
    {
      RingPop(buffer[..], head, count);
      m := buffer[head];
      head := (head + 1) % BUFFER_SIZE;
      count := count - 1;
    }

    // ---- Send and receive ----

    // Every message that got handed out in this step is in the registers of the receive it
    // answers; registers of threads other than `caller` and that receiver are untouched.
    twostate predicate Delivers(caller: nat)
      reads this
    {
      && old(delivered) <= delivered && |delivered| <= |old(delivered)| + 1 && |delivered| <= |receives|
      && (forall k :: |old(delivered)| <= k < |delivered| ==>
            receives[k] in payload && payload[receives[k]] == delivered[k] && receives[k] !in blocked)
      && (forall t :: t in old(payload) && t != caller && t !in receives[|old(delivered)|..|delivered|] ==>
            t in payload && payload[t] == old(payload)[t])
    }

    // A waiting receiver takes the message directly.
    method HandOver(caller: nat, m: Msg)
      requires Valid() && recvQ != []
      modifies `recvHead, `recvTail, `recvQ, `blocked, `payload, `sent, `delivered
      ensures Valid() && sent == old(sent) + [m] && receives == old(receives) && Delivers(caller)
      ensures blocked <= old(blocked)
    {
      var receiver := PopReceiver();
      assert receives[|delivered|..] == [receiver] + recvQ;
      assert receives[|delivered|] == receiver;
      assert Ring() == [] && Payloads(payload, sendQ) == [];
      payload := payload[receiver := m];
      sent, delivered := sent + [m], delivered + [m];
      assert receives[|old(delivered)|..|delivered|] == [receiver] && receives[|delivered|..] == recvQ;
    }

    method Buffer(caller: nat, m: Msg)
      requires Valid() && recvQ == [] && count < BUFFER_SIZE
      modifies this, buffer
      ensures Valid() && sent == old(sent) + [m] && receives == old(receives) && Delivers(caller)
      ensures blocked == old(blocked)
    {
      PushRing(m);
      sent := sent + [m];
    }

    method BlockSender(caller: nat, m: Msg)
      requires Valid() && recvQ == [] && count == BUFFER_SIZE && caller !in blocked
      modifies this
      ensures Valid() && sent == old(sent) + [m] && receives == old(receives) && Delivers(caller)
      ensures blocked == old(blocked) + {caller}
    {
      PushSender(caller);
      payload := payload[caller := m];
      assert Payloads(payload, sendQ) == old(Payloads(payload, sendQ)) + [m];
      sent := sent + [m];
    }

    // The send half of ipc_invoke_endpoint.
    method Send(caller: nat, m: Msg)
      requires Valid() && caller !in blocked
      modifies this, buffer
      ensures Valid() && sent == old(sent) + [m] && receives == old(receives) && Delivers(caller)
      ensures caller in blocked <==> |old(sent)| >= |old(receives)| + BUFFER_SIZE
    {
      if recvHead.Some? {
        HandOver(caller, m);
      } else if count < BUFFER_SIZE {
        Buffer(caller, m);
      } else {
        BlockSender(caller, m);
      }
    }

    // The slot just vacated goes to the longest-blocked sender, if any.
    method Refill()
      requires Waits() && InRange() && recvQ == []
      requires sendQ != [] ==> count == BUFFER_SIZE - 1
      requires forall i :: 0 <= i < |sendQ| ==> sendQ[i] in payload
      modifies `tail, `count, buffer, `sendHead, `sendTail, `sendQ, `blocked
      ensures Waits() && Shape() && blocked <= old(blocked)
      ensures forall i :: 0 <= i < |sendQ| ==> sendQ[i] in payload
      ensures Ring() + Payloads(payload, sendQ) == old(Ring() + Payloads(payload, sendQ))
    {
      if sendHead.Some? {
        assert Payloads(payload, sendQ) == [payload[sendQ[0]]] + Payloads(payload, sendQ[1..]);
        var sender := PopSender();
        PushRing(payload[sender]);
      }
    }

    method TakeHead(caller: nat) returns (m: Msg)
      requires Valid() && 0 < count && caller !in blocked
      modifies `head, `count, `payload, `delivered, `receives
      ensures InRange() && count == old(count) - 1
      ensures forall i :: 0 <= i < |sendQ| ==> sendQ[i] in payload
      ensures sent == delivered + (Ring() + Payloads(payload, sendQ))
      ensures receives == old(receives) + [caller] && |receives| == |delivered|
      ensures delivered == old(delivered) + [m] && payload == old(payload)[caller := m]
    {
      m := PopRing();
      payload := payload[caller := m];
      assert caller !in sendQ;
      assert Payloads(payload, sendQ) == old(Payloads(payload, sendQ));
      delivered := delivered + [m];
      receives := receives + [caller];
    }

    method TakeFromRing(caller: nat)
      requires Valid() && 0 < count && caller !in blocked
      modifies `head, `tail, `count, buffer, `payload, `delivered, `receives, `sendHead, `sendTail, `sendQ, `blocked
      ensures Valid() && sent == old(sent) && receives == old(receives) + [caller] && Delivers(caller)
      ensures blocked <= old(blocked)
    {
      LastOne(receives, caller);
      assert |receives| == |delivered|;
      var m := TakeHead(caller);
      assert receives[|delivered|..] == [] == recvQ;
      Refill();
    }

    // The receive half of ipc_invoke_endpoint.
    method Receive(caller: nat)
      requires Valid() && caller !in blocked
      modifies this, buffer
      ensures Valid() && sent == old(sent) && receives == old(receives) + [caller] && Delivers(caller)
      ensures caller in blocked <==> |old(sent)| <= |old(receives)|
    {
      if count > 0 {
        TakeFromRing(caller);
      } else {
        PushReceiver(caller);
        receives := receives + [caller];
      }
    }

    /** One invocation of an endpoint capability: refused, leaving everything as it was,
        exactly when the capability lacks the right the chosen operation needs. */
    method Invoke(caller: nat, canWrite: bool, canRead: bool, badge: nat, choice: Choice, a0: nat, a1: nat, a2: nat)
      returns (ok: bool)
      requires Valid() && caller !in blocked
      modifies this, buffer
      ensures Valid()
      ensures ok == (if choice == ForceSend then canWrite
                     else if choice == ForceReceive then canRead
                     else canWrite || canRead)
      ensures !ok ==> unchanged(this) && unchanged(buffer)
      ensures ok && (choice == ForceSend || (choice == Auto && canWrite)) ==>
        sent == old(sent) + [Msg(a0, a1, a2, badge)] && receives == old(receives) && Delivers(caller)
      ensures ok && (choice == ForceReceive || (choice == Auto && !canWrite)) ==>
        sent == old(sent) && receives == old(receives) + [caller] && Delivers(caller)
    {
      var isSend := false;
      if choice == ForceSend {
        isSend := true;
      } else if choice == Auto {
        if canWrite {
          isSend := true;
        } else if !canRead {
          return false;
        }
      }
      if isSend {
        if !canWrite {
          return false;
        }
        Send(caller, Msg(a0, a1, a2, badge));
      } else {
        if !canRead {
          return false;
        }
        Receive(caller);
      }
      return true;
    }
  }
}
