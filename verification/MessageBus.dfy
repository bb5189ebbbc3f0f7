/** The class `MessageBus` (agent/message_bus.cpp): its methods carry out the steps of `BusModel`. */
module MessageBus {
  import opened BusModel
  import opened Sequences

  /** The delivery loop of a broadcast. */
  method PushToAll(inboxes: map<Id, seq<Message>>, m: Message)
    returns (boxes: map<Id, seq<Message>>, pending: seq<Id>)
    requires m.kind == Broadcast
    ensures boxes == Deliver(inboxes, m)
    ensures forall id :: id in pending <==> id in inboxes && For(m, id)
    ensures NoDuplicates(pending)
  {
    pending, boxes := [], inboxes;
    var todo := inboxes.Keys;
    while todo != {}
      invariant todo <= inboxes.Keys && boxes.Keys == inboxes.Keys
      invariant forall id :: id in inboxes && (id in todo || !For(m, id)) ==> boxes[id] == inboxes[id]
      invariant forall id :: id in inboxes && id !in todo && For(m, id) ==> boxes[id] == inboxes[id] + [m]
      invariant forall id :: id in pending <==> id in inboxes && id !in todo && For(m, id)
      invariant NoDuplicates(pending)
      decreases |todo|
    {
      var id :| id in todo;
      if id != m.from {
        NoDuplicatesAppend(pending, id);
        boxes := boxes[id := boxes[id] + [m]];
        pending := pending + [id];
      }
      todo := todo - {id};
    }
  }

  lemma DeliverDirect(inboxes: map<Id, seq<Message>>, m: Message)
    requires m.kind != Broadcast && m.to in inboxes
    ensures inboxes[m.to := inboxes[m.to] + [m]] == Deliver(inboxes, m)
  {
  }

  /** Deliver a message; pending lists the receivers. */
  method Distribute(inboxes: map<Id, seq<Message>>, m: Message)
    returns (boxes: map<Id, seq<Message>>, pending: seq<Id>)
    requires m.kind == Broadcast || m.to in inboxes
    ensures boxes == Deliver(inboxes, m)
    ensures forall id :: id in pending <==> id in inboxes && For(m, id)
    ensures NoDuplicates(pending)
  {
    if m.kind == Broadcast {
      boxes, pending := PushToAll(inboxes, m);
    } else {
      DeliverDirect(inboxes, m);
      boxes := inboxes[m.to := inboxes[m.to] + [m]];
      pending := [m.to];
    }
  }

  /** The loop of `poll`: take messages from the front of a queue. */
  method TakeFront(queue0: seq<Message>, max: nat) returns (taken: seq<Message>, queue: seq<Message>)
    ensures taken + queue == queue0
    ensures |taken| == if |queue0| <= max then |queue0| else max
  {
    taken, queue := [], queue0;
    while |queue| != 0 && |taken| < max
      invariant |taken| <= max && taken + queue == queue0
      decreases |queue|
    {
      taken := taken + [queue[0]];
      queue := queue[1..];
    }
  }

  class MessageBus {
    const mac: Mac
    var agents: set<Id>
    var inboxes: map<Id, seq<Message>>
    var globalSeq: nat
    var lastAuditHash: string
    var totalMessages: nat
    /** The kinds each agent has subscribed to; their handlers are outside the model. */
    var subscriptions: map<Id, set<Kind>>

    ghost predicate Valid()
      reads this
    {
      agents == inboxes.Keys
    }

    ghost function State(): Bus
      reads this
    {
      Bus(agents, inboxes, globalSeq, lastAuditHash, totalMessages)
    }

    constructor (mac: Mac)
      ensures this.mac == mac && Valid() && State() == EMPTY_BUS && subscriptions == map[]
    {
      this.mac := mac;
      agents, inboxes := {}, map[];
      globalSeq, lastAuditHash, totalMessages := 0, "", 0;
      subscriptions := map[];
    }

    /** The generated identifier may collide with a live one; the inbox then starts afresh. */
    method RegisterAgent(id: Id)
      requires Valid()
      modifies this
      ensures Valid() && State() == Register(old(State()), id) && subscriptions == old(subscriptions)
      ensures agents == old(agents) + {id} && inboxes == old(inboxes)[id := []]
    {
      agents := agents + {id};
      inboxes := inboxes[id := []];
    }

    method UnregisterAgent(id: Id)
      requires Valid()
      modifies this
      ensures Valid() && State() == Unregister(old(State()), id) && subscriptions == old(subscriptions) - {id}
      ensures agents == old(agents) - {id} && inboxes == old(inboxes) - {id}
    {
      agents := agents - {id};
      inboxes := inboxes - {id};
      subscriptions := subscriptions - {id};
    }

    /** `subscribe`: a handler for messages of one kind to one receiver. */
    method Subscribe(id: Id, kind: Kind)
      modifies this`subscriptions
      ensures forall i, k :: Subscribed(i, k) <==> old(Subscribed(i, k)) || (i == id && k == kind)
    {
      var kinds := if id in subscriptions then subscriptions[id] else {};
      subscriptions := subscriptions[id := kinds + {kind}];
    }

    predicate Subscribed(id: Id, kind: Kind)
      reads this`subscriptions
    {
      id in subscriptions && kind in subscriptions[id]
    }

    /** Number the message and chain it to the last digest. */
    method StampMessage(msg: Message, freshId: string) returns (m: Message)
      modifies this`globalSeq, this`lastAuditHash, this`totalMessages
      ensures m == Stamp(old(State()), msg, freshId, mac)
      ensures globalSeq == m.seqNo && lastAuditHash == m.hmac && totalMessages == old(totalMessages) + 1
    {
      m := msg;
      if m.id == "" {
        m := m.(id := freshId);
      }
      globalSeq := (globalSeq + 1) % WORD;
      m := m.(seqNo := globalSeq, auditHash := lastAuditHash);
      m := m.(hmac := mac(Record(m, lastAuditHash)));
      lastAuditHash := m.hmac;
      totalMessages := totalMessages + 1;
    }

    /** The locked part of `send`.  Afterwards the handlers of the agents in pending run, as far as
        they have one, and then that of the subscriber to the receiver and kind, if there is one. */
    method SendMessage(msg: Message, freshId: string) returns (ok: bool, pending: seq<Id>, subscriber: bool)
      requires Valid()
      modifies this
      ensures subscriptions == old(subscriptions) && subscriber == (ok && Subscribed(msg.to, msg.kind))
      ensures Valid() && ok == Accepts(old(State()), msg) && State() == Send(old(State()), msg, freshId, mac)
      ensures ok <==> msg.from in agents && (msg.kind == Broadcast || msg.to in agents)
      ensures agents == old(agents) && (!ok ==> inboxes == old(inboxes))
      ensures forall id :: id in pending <==> ok && id in agents && For(msg, id)
      ensures NoDuplicates(pending)
    {
      pending, subscriber := [], false;
      if msg.from !in agents {
        return false, pending, subscriber;
      }
      if msg.kind != Broadcast && msg.to !in agents {
        return false, pending, subscriber;
      }
      var m := StampMessage(msg, freshId);
      inboxes, pending := Distribute(inboxes, m);
      subscriber := Subscribed(m.to, m.kind);
      ok := true;
    }

    method BroadcastMessage(msg: Message, freshId: string) returns (ok: bool, pending: seq<Id>, subscriber: bool)
      requires Valid()
      modifies this
      ensures Valid() && ok == Accepts(old(State()), AsBroadcast(msg))
      ensures State() == Send(old(State()), AsBroadcast(msg), freshId, mac)
      ensures subscriptions == old(subscriptions) && subscriber == (ok && Subscribed("", Broadcast))
      ensures forall id :: id in pending <==> ok && id in agents && id != msg.from
    {
      ok, pending, subscriber := SendMessage(msg.(kind := Broadcast, to := ""), freshId);
    }

    method PollMessages(id: Id, max: nat) returns (result: seq<Message>)
      requires Valid()
      modifies this
      ensures Valid() && State() == Poll(old(State()), id, max) && subscriptions == old(subscriptions)
      ensures result == PolledFrom(old(State()), id, max)
      ensures id !in old(inboxes) ==> result == [] && inboxes == old(inboxes)
      ensures id in old(inboxes) ==>
                && id in inboxes && result + inboxes[id] == old(inboxes)[id]
                && |result| == (if max < |old(inboxes)[id]| then max else |old(inboxes)[id]|)
                && inboxes == old(inboxes)[id := inboxes[id]]
    {
      result := [];
      if id !in inboxes {
        return;
      }
      var queue;
      result, queue := TakeFront(inboxes[id], max);
      inboxes := inboxes[id := queue];
    }
  }
}
