/** The receiver-filtered message queue, with its non-blocking operations. */
module MessageQueues {
  import opened Bytes

  /** A queued message. `stamp` counts the ids issued before it; the id itself is that count in 32 bits. */
  class Message {
    const id: nat
    const sender: nat
    const receiver: nat
    const kind: nat
    const data: seq<byte>
    ghost const stamp: nat
    var next: Message?

    constructor (id: nat, sender: nat, receiver: nat, kind: nat, data: seq<byte>, ghost stamp: nat)
      ensures this.id == id && this.sender == sender && this.receiver == receiver && this.kind == kind
      ensures this.data == data && this.stamp == stamp && next == null
    {
      this.id, this.sender, this.receiver, this.kind, this.data, this.stamp, next := id, sender, receiver, kind, data,
          stamp, null;
    }
  }

  /** Receiver 0 takes anything, and a message to 0 goes to anyone. */
  predicate Matches(m: Message, receiver: nat) {
    receiver == 0 || m.receiver == 0 || m.receiver == receiver
  }

  function IdOf(stamp: nat): nat {
    (1 + stamp) % U32_LIMIT
  }

  // ---- Lists ----

  function After(s: seq<Message>, i: nat): Message?
    requires i < |s|
  {
    if i + 1 < |s| then s[i + 1] else null
  }

  ghost predicate Chained(s: seq<Message>)
    reads s`next
  {
    forall i: nat {:trigger s[i].next} | i < |s| :: s[i].next == After(s, i)
  }

  /** Stamps go up along the list, so no message is on it twice. */
  ghost predicate Rising(s: seq<Message>) {
    forall i, j | 0 <= i < j < |s| :: s[i].stamp < s[j].stamp
  }

  function HeadOf(s: seq<Message>): Message? {
    if s == [] then null else s[0]
  }

  function LastOf(s: seq<Message>): Message? {
    if s == [] then null else s[|s| - 1]
  }

  /** The list without its `i`-th member. */
  function Cut(s: seq<Message>, i: nat): (r: seq<Message>)
    requires i < |s|
    ensures |r| == |s| - 1
  {
    s[..i] + s[i + 1..]
  }

  lemma CutEnds(s: seq<Message>, i: nat)
    requires i < |s| && Rising(s)
    ensures HeadOf(Cut(s, i)) == if i == 0 then After(s, 0) else HeadOf(s)
    ensures LastOf(Cut(s, i)) == if LastOf(s) == s[i] then (if i == 0 then null else s[i - 1]) else LastOf(s)
  {
  }

  /** Who follows whom once the `i`-th member is gone. */
  lemma CutAfter(s: seq<Message>, i: nat, j: nat)
    requires i < |s| && Rising(s) && j < |s| - 1
    ensures |Cut(s, i)| == |s| - 1 && Cut(s, i)[j] == s[if j < i then j else j + 1]
    ensures After(Cut(s, i), j) == if j + 1 == i then After(s, i) else After(s, if j < i then j else j + 1)
    ensures i > 0 && j + 1 != i ==> Cut(s, i)[j] != s[i - 1]
  {
  }

  /** `m` is the first message on the list for this receiver. */
  ghost predicate First(s: seq<Message>, i: nat, receiver: nat) {
    i < |s| && Matches(s[i], receiver) && forall j | 0 <= j < i :: !Matches(s[j], receiver)
  }

  // ---- History ----

  datatype Delivery = Delivery(to: nat, msg: Message)

  /** What happened so far: messages accepted, delivered (to whom, in order) and thrown away. */
  datatype History = History(accepted: multiset<Message>, delivered: seq<Delivery>, flushed: multiset<Message>)

  ghost function Handed(d: seq<Delivery>): multiset<Message> {
    if d == [] then multiset{} else Handed(d[..|d| - 1]) + multiset{d[|d| - 1].msg}
  }

  /** Each accepted message is exactly once in one place: pending, delivered or flushed. */
  ghost predicate Accounted(pending: seq<Message>, h: History) {
    && h.accepted == multiset(pending) + Handed(h.delivered) + h.flushed
    && forall m | m in h.accepted :: h.accepted[m] == 1
  }

  /** So no message is lost, delivered twice, or delivered and flushed. */
  lemma ExactlyOnce(pending: seq<Message>, h: History, m: Message)
    requires Accounted(pending, h)
    ensures m in h.accepted <==> m in pending || m in Handed(h.delivered) || m in h.flushed
    ensures m in pending ==> m !in Handed(h.delivered) && m !in h.flushed && multiset(pending)[m] == 1
    ensures m in Handed(h.delivered) ==> m !in h.flushed && Handed(h.delivered)[m] == 1
  {
    assert m in pending <==> m in multiset(pending);
  }

  /** The ids one receiver gets rise strictly, as long as fewer than 2^32 ids were issued. */
  lemma IdsDelivered(pending: seq<Message>, d: seq<Delivery>, issued: nat, i: nat, j: nat)
    requires InOrder(pending, d, issued) && issued < U32_LIMIT && i < j < |d| && d[i].to == d[j].to
    ensures d[i].msg.id < d[j].msg.id
  {
    IdsRise(d[i].msg.stamp, d[j].msg.stamp);
  }

  /** What one receiver got has rising stamps, and whatever it may still get comes later. */
  ghost predicate InOrder(pending: seq<Message>, d: seq<Delivery>, issued: nat) {
    && (forall i, j | 0 <= i < j < |d| && d[i].to == d[j].to :: d[i].msg.stamp < d[j].msg.stamp)
    && (forall i | 0 <= i < |d| :: d[i].msg.stamp < issued)
    && (forall i, j | 0 <= i < |d| && 0 <= j < |pending|
        && Matches(pending[j], d[i].to) :: d[i].msg.stamp < pending[j].stamp)
    && (forall j | 0 <= j < |pending| :: pending[j].stamp < issued && pending[j].id == IdOf(pending[j].stamp))
    && (forall i | 0 <= i < |d| :: d[i].msg.id == IdOf(d[i].msg.stamp))
  }

  lemma SentInOrder(pending: seq<Message>, d: seq<Delivery>, issued: nat, m: Message)
    requires InOrder(pending, d, issued) && Rising(pending) && m.stamp == issued && m.id == IdOf(issued)
    ensures InOrder(pending + [m], d, issued + 1) && Rising(pending + [m])
  {
  }

  lemma TakenInOrder(pending: seq<Message>, d: seq<Delivery>, issued: nat, i: nat, receiver: nat)
    requires InOrder(pending, d, issued) && Rising(pending) && First(pending, i, receiver)
    ensures InOrder(Cut(pending, i), d + [Delivery(receiver, pending[i])], issued) && Rising(Cut(pending, i))
  {
    var rest := Cut(pending, i);
    assert forall j | 0 <= j < |rest| :: rest[j] == pending[if j < i then j else j + 1];
  }

  lemma SentAccounted(pending: seq<Message>, h: History, m: Message)
    requires Accounted(pending, h) && m !in h.accepted
    ensures Accounted(pending + [m], h.(accepted := h.accepted + multiset{m}))
  {
  }

  lemma TakenAccounted(pending: seq<Message>, h: History, i: nat, receiver: nat)
    requires Accounted(pending, h) && i < |pending|
    ensures Accounted(Cut(pending, i), h.(delivered := h.delivered + [Delivery(receiver, pending[i])]))
  {
    var d := h.delivered + [Delivery(receiver, pending[i])];
    assert d[..|h.delivered|] == h.delivered;
    assert pending == pending[..i] + ([pending[i]] + pending[i + 1..]);
  }

  lemma FlushedAccounted(pending: seq<Message>, h: History)
    requires Accounted(pending, h)
    ensures Accounted([], h.(flushed := h.flushed + multiset(pending)))
  {
  }

  /** Ids rise with the stamps as long as the 32-bit counter has not wrapped, and not always afterwards. */
  lemma IdsRise(a: nat, b: nat)
    requires a < b
    ensures b + 1 < U32_LIMIT ==> IdOf(a) < IdOf(b)
    ensures IdOf(a) < IdOf(b) <==> (1 + a) % U32_LIMIT + (b - a) % U32_LIMIT < U32_LIMIT && (b - a) % U32_LIMIT != 0
  {
  }

  class MessageQueue {
    const maxMessages: nat
    const maxMessageSize: nat
    var count: nat
    var head: Message?
    var tail: Message?
    var nextId: nat
    var closed: bool
    ghost var pending: seq<Message>
    ghost var issued: nat
    ghost var history: History

    constructor (maxMessages: nat, maxMessageSize: nat)
      ensures Valid() && this.maxMessages == maxMessages && this.maxMessageSize == maxMessageSize
      ensures pending == [] && !closed && history == History(multiset{}, [], multiset{})
    {
      this.maxMessages, this.maxMessageSize := maxMessages, maxMessageSize;
      count, head, tail, nextId, closed := 0, null, null, 1, false;
      pending, issued, history := [], 0, History(multiset{}, [], multiset{});
    }

    /** Head, tail and links agree with the ghost list. */
    ghost predicate ListOk()
      reads this`head, this`tail, this`pending, pending`next
    {
      head == HeadOf(pending) && tail == LastOf(pending) && Chained(pending) && Rising(pending)
    }

    ghost predicate Valid()
      reads this, pending`next
    {
      && ListOk() && count == |pending| <= maxMessages && nextId == IdOf(issued)
      && Accounted(pending, history) && InOrder(pending, history.delivered, issued)
    }

    /** The first matching message and the one before it. */
    method FindMatchingMessage(receiver: nat) returns (msg: Message?, prev: Message?, ghost i: nat)
      requires Valid()
      ensures msg == null ==> forall m | m in pending :: !Matches(m, receiver)
      ensures msg != null ==>
            First(pending, i, receiver) && msg == pending[i]
            && prev == (if i == 0 then null else pending[i - 1])
    {
      hide Accounted, InOrder;
      prev, msg, i := null, head, 0;
      while msg != null
        invariant 0 <= i <= |pending| && msg == (if i < |pending| then pending[i] else null)
        invariant prev == if i == 0 then null else pending[i - 1]
        invariant forall j | 0 <= j < i :: !Matches(pending[j], receiver)
        decreases |pending| - i
      {
        if receiver == 0 || msg.receiver == 0 || msg.receiver == receiver {
          return;
        }
        prev := msg;
        msg := msg.next;
        i := i + 1;
      }
    }

    /** Queues a message; `memory` tells whether the message and its copy of the data could be had. */
    method Send(sender: nat, receiver: nat, kind: nat, data: Option<seq<byte>>, size: nat, memory: bool)
      returns (ok: bool)
      requires Valid() && (data.Some? ==> |data.value| == size)
      modifies this, pending`next
      ensures Valid() && closed == old(closed)
      ensures ok <==>
            !closed && (size > 0 ==> data.Some?) && size <= maxMessageSize && old(|pending|) < maxMessages
            && memory
      ensures ok ==>
            |pending| == |old(pending)| + 1 && pending[..|old(pending)|] == old(pending)
            && fresh(pending[|old(pending)|])
      ensures ok ==> var m := pending[|pending| - 1];
                     m.sender == sender && m.receiver == receiver && m.kind == kind && m.id == old(nextId)
                     && m.data == (if size > 0 then data.value else [])
                     && history == old(history).(accepted := old(history).accepted + multiset{m})
      ensures ok ==> nextId == (old(nextId) + 1) % U32_LIMIT
      ensures !ok ==> pending == old(pending) && history == old(history)
    {
      hide Accounted, InOrder, Chained, Rising, HeadOf, LastOf, IdOf;
      if closed || (size > 0 && data.None?) || size > maxMessageSize {
        return false;
      }
      if count >= maxMessages {
        return false;
      }
      var id := nextId;
      nextId := (nextId + 1) % U32_LIMIT;
      NextIssued(issued);
      issued := issued + 1;
      if !memory {
        IssuedOnly(pending, history.delivered, issued - 1);
        return false;
      }
      var msg := new Message(id, sender, receiver, kind, if size > 0 then data.value else [], issued - 1);
      Accept(msg);
      ok := true;
    }

    /** Puts a new message behind the others. */
    method Accept(msg: Message)
      requires ListOk() && count == |pending| < maxMessages && nextId == IdOf(issued) && issued > 0
      requires Accounted(pending, history) && InOrder(pending, history.delivered, issued - 1)
      requires msg !in pending && msg !in history.accepted && msg.next == null
      requires msg.stamp == issued - 1 && msg.id == IdOf(issued - 1)
      modifies this`head, this`tail, this`pending, this`count, this`history, pending`next
      ensures Valid() && pending == old(pending) + [msg]
      ensures history == old(history).(accepted := old(history).accepted + multiset{msg})
    {
      hide Accounted, InOrder, Chained, Rising, HeadOf, LastOf, IdOf;
      SentInOrder(pending, history.delivered, issued - 1, msg);
      SentAccounted(pending, history, msg);
      Append(msg);
      count := count + 1;
      history := history.(accepted := history.accepted + multiset{msg});
    }

    method Append(msg: Message)
      requires ListOk() && msg !in pending && msg.next == null && Rising(pending + [msg])
      modifies this`head, this`tail, this`pending, pending`next
      ensures ListOk() && pending == old(pending) + [msg]
    {
      if head == null {
        head := msg;
        tail := msg;
      } else {
        tail.next := msg;
        tail := msg;
      }
      pending := pending + [msg];
    }

    method Unlink(prev: Message?, msg: Message, ghost i: nat)
      requires ListOk() && i < |pending| && msg == pending[i] && prev == (if i == 0 then null else pending[i - 1])
      requires Rising(Cut(pending, i))
      modifies this`head, this`tail, this`pending, pending`next
      ensures ListOk() && pending == Cut(old(pending), i)
    {
      hide Cut, After, HeadOf, LastOf, Rising;
      ghost var s := pending;
      CutEnds(s, i);
      if prev != null {
        prev.next := msg.next;
      } else {
        head := msg.next;
      }
      if tail == msg {
        tail := prev;
      }
      pending := Cut(s, i);
      forall j: nat | j < |Cut(s, i)|
        ensures Cut(s, i)[j].next == After(Cut(s, i), j)
      {
        CutAfter(s, i, j);
        ghost var k := if j < i then j else j + 1;
        assert old(s[k].next) == After(s, k);
      }
    }

    /** Takes the first matching message out of the list, wherever it stands. */
    method Receive(receiver: nat, bufferSize: nat) returns (ok: bool, kind: nat, bytes: seq<byte>, sender: nat, id: nat)
      requires Valid()
      modifies this`count, this`head, this`tail, this`pending, this`history, pending`next
      ensures Valid()
      ensures ok <==> !closed && bufferSize > 0 && exists m :: m in old(pending) && Matches(m, receiver)
      ensures ok ==> exists i: nat :: Delivers(old(pending), old(history), i, receiver, pending, history, kind, bytes,
                                               sender, id, bufferSize)
      ensures !ok ==> pending == old(pending) && history == old(history)
    {
      hide Accounted, InOrder, Chained, Rising, HeadOf, LastOf;
      kind, bytes, sender, id := 0, [], 0, 0;
      if closed || bufferSize == 0 {
        return false, kind, bytes, sender, id;
      }
      var msg, prev, i := FindMatchingMessage(receiver);
      if msg == null {
        return false, kind, bytes, sender, id;
      }
      bytes := Front(msg.data, bufferSize);
      kind, sender, id := msg.kind, msg.sender, msg.id;
      ghost var s := pending;
      TakenInOrder(s, history.delivered, issued, i, receiver);
      TakenAccounted(s, history, i, receiver);
      ghost var h := history;
      Unlink(prev, msg, i);
      count := count - 1;
      history := history.(delivered := history.delivered + [Delivery(receiver, msg)]);
      ok := true;
      assert Delivers(s, h, i, receiver, pending, history, kind, bytes, sender, id, bufferSize);
    }

    method Peek(receiver: nat, bufferSize: nat) returns (ok: bool, kind: nat, bytes: seq<byte>, sender: nat, id: nat)
      requires Valid()
      ensures ok <==> !closed && bufferSize > 0 && exists m :: m in pending && Matches(m, receiver)
      ensures ok ==>
                exists i: nat ::
                  && First(pending, i, receiver) && kind == pending[i].kind && sender == pending[i].sender
                  && id == pending[i].id && bytes == Front(pending[i].data, bufferSize)
    {
      hide Accounted, InOrder;
      kind, bytes, sender, id := 0, [], 0, 0;
      if closed || bufferSize == 0 {
        return false, kind, bytes, sender, id;
      }
      var msg, prev, i := FindMatchingMessage(receiver);
      if msg == null {
        return false, kind, bytes, sender, id;
      }
      return true, msg.kind, Front(msg.data, bufferSize), msg.sender, msg.id;
    }

    method Close()
      requires Valid()
      modifies this`closed
      ensures Valid() && closed
    {
      closed := true;
    }

    method Flush()
      requires Valid()
      modifies this`count, this`head, this`tail, this`pending, this`history
      ensures Valid() && pending == [] && history ==
              old(history).(flushed := old(history).flushed + multiset(old(pending)))
    {
      hide Accounted, InOrder, Chained, IdOf, Rising, HeadOf, LastOf;
      FlushedAccounted(pending, history);
      EmptyInOrder(pending, history.delivered, issued);
      DropAll();
      tail := null;
      count := 0;
      history := history.(flushed := history.flushed + multiset(pending));
      pending := [];
      NothingChained();
    }

    /** Walks the list and drops every message. */
    method DropAll()
      requires ListOk()
      modifies this`head
      ensures head == null
    {
      hide Rising, LastOf;
      ghost var i := 0;
      while head != null
        invariant 0 <= i <= |pending| && head == (if i < |pending| then pending[i] else null)
        modifies this`head
        decreases |pending| - i
      {
        head := head.next;
        i := i + 1;
      }
    }
  }

  /** When the counter stands at its last value, two messages sent and received in order get falling ids. */
  method IdsWrap(q: MessageQueue, receiver: nat) returns (first: nat, second: nat)
    requires q.Valid() && q.nextId == 0xFFFF_FFFF && q.pending == [] && !q.closed && q.maxMessages >= 2
    modifies q
    ensures first == 0xFFFF_FFFF && second == 0
  {
    hide Accounted, InOrder, Chained, Rising, HeadOf, LastOf, IdOf;
    var ok := q.Send(0, receiver, 0, None, 0, true);
    ok := q.Send(0, receiver, 0, None, 0, true);
    ghost var s := q.pending;
    assert s[0].id == 0xFFFF_FFFF && s[1].id == 0 && s[0] in s && Matches(s[0], receiver) && Matches(s[1], receiver);
    var kind, bytes, sender;
    ok, kind, bytes, sender, first := q.Receive(receiver, 1);
    assert q.pending == [s[1]] && s[1] in q.pending;
    ok, kind, bytes, sender, second := q.Receive(receiver, 1);
  }

  function Front(data: seq<byte>, room: nat): seq<byte> {
    if |data| < room then data else data[..room]
  }

  /** Receiving: the first matching message leaves the list, its fields are handed over, and the history says so. */
  ghost predicate Delivers(s: seq<Message>, h: History, i: nat, receiver: nat, s2: seq<Message>, h2: History,
                           kind: nat, bytes: seq<byte>, sender: nat, id: nat, room: nat) {
    && First(s, i, receiver) && s2 == Cut(s, i)
    && h2 == h.(delivered := h.delivered + [Delivery(receiver, s[i])])
    && kind == s[i].kind && sender == s[i].sender && id == s[i].id && bytes == Front(s[i].data, room)
  }

  lemma NothingChained()
    ensures Chained([]) && Rising([]) && HeadOf([]) == null && LastOf([]) == null
  {
  }

  lemma NextIssued(issued: nat)
    ensures (IdOf(issued) + 1) % U32_LIMIT == IdOf(issued + 1)
  {
  }

  lemma IssuedOnly(pending: seq<Message>, d: seq<Delivery>, issued: nat)
    requires InOrder(pending, d, issued)
    ensures InOrder(pending, d, issued + 1)
  {
  }

  lemma EmptyInOrder(pending: seq<Message>, d: seq<Delivery>, issued: nat)
    requires InOrder(pending, d, issued)
    ensures InOrder([], d, issued)
  {
  }
}
