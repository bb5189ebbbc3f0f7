/** The message bus of agent/message_bus.cpp as a state machine.  Every public operation is one
    atomic step (its mutex section), so a sequence of events is one interleaving of the agents.
    Handlers run outside the lock; what they send shows up as further events.
 */
module BusModel {

  type Id = string
  type Mac = string -> string

  datatype Kind = Direct | Broadcast | TaskAssign | TaskResult | ToolCall | ToolResult | SupervisorCmd | Heartbeat

  datatype Message = Message(id: string, from: Id, to: Id, kind: Kind, content: string, taskId: string,
                             seqNo: nat, auditHash: string, hmac: string)

  datatype Bus = Bus(agents: set<Id>, inboxes: map<Id, seq<Message>>, globalSeq: nat, lastAuditHash: string,
                     totalMessages: nat)

  const EMPTY_BUS := Bus({}, map[], 0, "", 0)

  /** The sequence counter is a 64-bit word. */
  const WORD := 0x1_0000_0000_0000_0000

  // ----- the audited record

  function KindNumber(k: Kind): nat {
    match k
    case Direct => 0
    case Broadcast => 1
    case TaskAssign => 2
    case TaskResult => 3
    case ToolCall => 4
    case ToolResult => 5
    case SupervisorCmd => 6
    case Heartbeat => 7
  }

  const DIGITS := "0123456789"

  function Decimal(n: nat): (s: string) {
    if n < 10 then [DIGITS[n]] else Decimal(n / 10) + [DIGITS[n % 10]]
  }

  /** The fields in front of the sequence number. */
  function Head(m: Message): string {
    m.id + "|" + m.from + "|" + m.to + "|" + Decimal(KindNumber(m.kind)) + "|" + m.content
  }

  function Body(m: Message): string {
    Head(m) + "|" + Decimal(m.seqNo)
  }

  /** The string that `compute_audit_hash` authenticates. */
  function Record(m: Message, previous: string): string {
    Body(m) + "|" + previous
  }

  ghost predicate Authentic(m: Message, mac: Mac) {
    m.hmac == mac(Record(m, m.auditHash))
  }

  // ----- the operations

  function Register(b: Bus, id: Id): Bus {
    b.(agents := b.agents + {id}, inboxes := b.inboxes[id := []])
  }

  function Unregister(b: Bus, id: Id): Bus {
    b.(agents := b.agents - {id}, inboxes := b.inboxes - {id})
  }

  predicate Accepts(b: Bus, msg: Message) {
    msg.from in b.agents && (msg.kind == Broadcast || msg.to in b.agents)
  }

  /** Whether a delivered message is for an agent. */
  predicate For(m: Message, id: Id) {
    if m.kind == Broadcast then id != m.from else id == m.to
  }

  function Stamp(b: Bus, msg: Message, freshId: string, mac: Mac): (m: Message)
    ensures Authentic(m, mac) && m.auditHash == b.lastAuditHash && m.seqNo == (b.globalSeq + 1) % WORD
  {
    var m := msg.(id := if msg.id == "" then freshId else msg.id,
                  seqNo := (b.globalSeq + 1) % WORD,
                  auditHash := b.lastAuditHash);
    m.(hmac := mac(Record(m, b.lastAuditHash)))
  }

  function Deliver(inboxes: map<Id, seq<Message>>, m: Message): map<Id, seq<Message>> {
    map id | id in inboxes :: if For(m, id) then inboxes[id] + [m] else inboxes[id]
  }

  function Send(b: Bus, msg: Message, freshId: string, mac: Mac): Bus {
    if !Accepts(b, msg) then b
    else
      var m := Stamp(b, msg, freshId, mac);
      Bus(b.agents, Deliver(b.inboxes, m), m.seqNo, m.hmac, b.totalMessages + 1)
  }

  function AsBroadcast(msg: Message): Message {
    msg.(kind := Broadcast, to := "")
  }

  function PolledFrom(b: Bus, id: Id, max: nat): seq<Message> {
    if id !in b.inboxes then []
    else if |b.inboxes[id]| <= max then b.inboxes[id] else b.inboxes[id][..max]
  }

  function Poll(b: Bus, id: Id, max: nat): Bus {
    if id !in b.inboxes then b
    else b.(inboxes := b.inboxes[id := b.inboxes[id][|PolledFrom(b, id, max)|..]])
  }

  // ----- runs

  datatype Event =
    | Registering(id: Id)
    | Unregistering(id: Id)
    | Sending(msg: Message, freshId: string)
    | Broadcasting(msg: Message, freshId: string)
    | Polling(id: Id, max: nat)

  /** The bus with its history: all accepted messages, and for each live agent the log position
      of its registration and what it has polled since. */
  datatype World = World(bus: Bus, log: seq<Message>, since: map<Id, nat>, polled: map<Id, seq<Message>>)

  const EMPTY_WORLD := World(EMPTY_BUS, [], map[], map[])

  function AfterSend(w: World, msg: Message, freshId: string, mac: Mac): World {
    w.(bus := Send(w.bus, msg, freshId, mac),
       log := if Accepts(w.bus, msg) then w.log + [Stamp(w.bus, msg, freshId, mac)] else w.log)
  }

  function Step(w: World, e: Event, mac: Mac): World {
    match e
    case Registering(id) =>
      World(Register(w.bus, id), w.log, w.since[id := |w.log|], w.polled[id := []])
    case Unregistering(id) =>
      World(Unregister(w.bus, id), w.log, w.since - {id}, w.polled - {id})
    case Sending(msg, freshId) => AfterSend(w, msg, freshId, mac)
    case Broadcasting(msg, freshId) => AfterSend(w, AsBroadcast(msg), freshId, mac)
    case Polling(id, max) =>
      w.(bus := Poll(w.bus, id, max),
         polled := if id in w.polled then w.polled[id := w.polled[id] + PolledFrom(w.bus, id, max)] else w.polled)
  }

  function Run(events: seq<Event>, mac: Mac): World {
    if events == [] then EMPTY_WORLD
    else Step(Run(events[..|events| - 1], mac), events[|events| - 1], mac)
  }

  /** The messages of the log that are for an agent, in order. */
  ghost function Addressed(log: seq<Message>, id: Id): seq<Message> {
    if log == [] then []
    else
      var m := log[|log| - 1];
      Addressed(log[..|log| - 1], id) + if For(m, id) then [m] else []
  }

  function LastDigest(log: seq<Message>): string {
    if log == [] then "" else log[|log| - 1].hmac
  }

  /** Message i carries number i + 1 and the digest of the message before it. */
  ghost predicate Linked(log: seq<Message>, i: nat, mac: Mac)
    requires i < |log|
  {
    log[i].seqNo == (i + 1) % WORD && log[i].auditHash == LastDigest(log[..i]) && Authentic(log[i], mac)
  }

  ghost predicate Chained(log: seq<Message>, mac: Mac) {
    forall i :: 0 <= i < |log| ==> Linked(log, i, mac)
  }

  /** What an agent has polled, followed by its inbox, is what the log holds for it since it registered. */
  ghost predicate Balanced(w: World, id: Id)
    requires id in w.bus.inboxes && id in w.since && id in w.polled
  {
    && w.since[id] <= |w.log|
    && w.polled[id] + w.bus.inboxes[id] == Addressed(w.log[w.since[id]..], id)
  }

  ghost predicate BooksBalance(w: World) {
    && w.bus.agents == w.bus.inboxes.Keys == w.since.Keys == w.polled.Keys
    && forall id :: id in w.bus.agents ==> Balanced(w, id)
  }

  ghost predicate AuditTrail(b: Bus, log: seq<Message>, mac: Mac) {
    && Chained(log, mac)
    && b.totalMessages == |log|
    && b.globalSeq == |log| % WORD
    && b.lastAuditHash == LastDigest(log)
  }

  /** What holds after every event. */
  ghost predicate Consistent(w: World, mac: Mac) {
    BooksBalance(w) && AuditTrail(w.bus, w.log, mac)
  }

  lemma AddressedAppend(log: seq<Message>, k: nat, m: Message, id: Id)
    requires k <= |log|
    ensures Addressed((log + [m])[k..], id) == Addressed(log[k..], id) + if For(m, id) then [m] else []
  {
    assert (log + [m])[k..] == log[k..] + [m];
    assert (log[k..] + [m])[..|log[k..]|] == log[k..];
  }

  lemma CounterStep(n: nat)
    ensures (n % WORD + 1) % WORD == (n + 1) % WORD
  {
  }

  lemma ChainExtends(log: seq<Message>, m: Message, mac: Mac)
    requires Chained(log, mac)
    requires m.seqNo == (|log| + 1) % WORD && m.auditHash == LastDigest(log) && Authentic(m, mac)
    ensures Chained(log + [m], mac)
  {
    forall i | 0 <= i <= |log| ensures Linked(log + [m], i, mac) {
      assert (log + [m])[..i] == log[..i];
      if i < |log| {
        assert Linked(log, i, mac);
      } else {
        assert log[..i] == log;
      }
    }
  }

  lemma SendKeepsBalance(w: World, msg: Message, freshId: string, mac: Mac, id: Id)
    requires Accepts(w.bus, msg)
    requires id in w.bus.inboxes && id in w.since && id in w.polled && Balanced(w, id)
    ensures Balanced(AfterSend(w, msg, freshId, mac), id)
  {
    var m := Stamp(w.bus, msg, freshId, mac);
    var inbox, more := w.bus.inboxes[id], if For(m, id) then [m] else [];
    AddressedAppend(w.log, w.since[id], m, id);
    assert AfterSend(w, msg, freshId, mac).bus.inboxes[id] == inbox + more;
    assert w.polled[id] + (inbox + more) == (w.polled[id] + inbox) + more;
  }

  lemma SendKeeps(w: World, msg: Message, freshId: string, mac: Mac)
    requires Consistent(w, mac)
    ensures Consistent(AfterSend(w, msg, freshId, mac), mac)
  {
    if Accepts(w.bus, msg) {
      SendKeepsTrail(w.bus, w.log, msg, freshId, mac);
      SendKeepsBooks(w, msg, freshId, mac);
    }
  }

  lemma SendKeepsTrail(b: Bus, log: seq<Message>, msg: Message, freshId: string, mac: Mac)
    requires AuditTrail(b, log, mac) && Accepts(b, msg)
    ensures AuditTrail(Send(b, msg, freshId, mac), log + [Stamp(b, msg, freshId, mac)], mac)
  {
    var m := Stamp(b, msg, freshId, mac);
    CounterStep(|log|);
    ChainExtends(log, m, mac);
    assert (log + [m])[|log|] == m;
  }

  lemma SendKeepsBooks(w: World, msg: Message, freshId: string, mac: Mac)
    requires BooksBalance(w) && Accepts(w.bus, msg)
    ensures BooksBalance(AfterSend(w, msg, freshId, mac))
  {
    var w' := AfterSend(w, msg, freshId, mac);
    assert w'.bus.inboxes.Keys == w.bus.inboxes.Keys;
    forall id | id in w'.bus.agents ensures Balanced(w', id) {
      SendKeepsBalance(w, msg, freshId, mac, id);
    }
  }

  lemma PollKeepsBalance(w: World, id: Id, max: nat, mac: Mac, other: Id)
    requires id in w.bus.inboxes && id in w.polled
    requires other in w.bus.inboxes && other in w.since && other in w.polled && Balanced(w, other)
    ensures Balanced(Step(w, Polling(id, max), mac), other)
  {
  }

  lemma PollKeeps(w: World, id: Id, max: nat, mac: Mac)
    requires BooksBalance(w)
    ensures BooksBalance(Step(w, Polling(id, max), mac))
  {
    if id in w.bus.inboxes {
      var w' := Step(w, Polling(id, max), mac);
      assert w'.bus.inboxes.Keys == w.bus.inboxes.Keys && w'.polled.Keys == w.polled.Keys;
      forall other | other in w'.bus.agents ensures Balanced(w', other) {
        PollKeepsBalance(w, id, max, mac, other);
      }
    }
  }

  lemma RegisterKeeps(w: World, id: Id, mac: Mac)
    requires BooksBalance(w)
    ensures BooksBalance(Step(w, Registering(id), mac))
  {
  }

  lemma UnregisterKeeps(w: World, id: Id, mac: Mac)
    requires BooksBalance(w)
    ensures BooksBalance(Step(w, Unregistering(id), mac))
  {
  }

  lemma StepKeeps(w: World, e: Event, mac: Mac)
    requires Consistent(w, mac)
    ensures Consistent(Step(w, e, mac), mac)
  {
    match e
    case Registering(id) =>
      RegisterKeeps(w, id, mac);
    case Unregistering(id) =>
      UnregisterKeeps(w, id, mac);
    case Sending(msg, freshId) =>
      SendKeeps(w, msg, freshId, mac);
    case Broadcasting(msg, freshId) =>
      SendKeeps(w, AsBroadcast(msg), freshId, mac);
    case Polling(id, max) =>
      PollKeeps(w, id, max, mac);
  }

  /** Every interleaving keeps the sequence numbers, the hash chain and the inboxes consistent. */
  lemma {:induction false} EveryRunIsConsistent(events: seq<Event>, mac: Mac)
    ensures Consistent(Run(events, mac), mac)
  {
    if events == [] {
    } else {
      EveryRunIsConsistent(events[..|events| - 1], mac);
      StepKeeps(Run(events[..|events| - 1], mac), events[|events| - 1], mac);
    }
  }

  // ----- what each operation does, seen from the inboxes

  /** A poll hands over the front of the inbox, as much of it as asked for, and touches no other agent. */
  lemma PollHandsOver(w: World, id: Id, max: nat, mac: Mac)
    requires id in w.bus.inboxes && id in w.polled
    ensures var w', inbox := Step(w, Polling(id, max), mac), w.bus.inboxes[id];
            && w'.log == w.log && w'.bus.agents == w.bus.agents
            && w'.bus.inboxes.Keys == w.bus.inboxes.Keys && w'.polled.Keys == w.polled.Keys
            && w.polled[id] <= w'.polled[id]
            && w'.polled[id] + w'.bus.inboxes[id] == w.polled[id] + inbox
            && |w'.bus.inboxes[id]| == (if max < |inbox| then |inbox| - max else 0)
            && (forall other :: other in w.bus.inboxes && other != id ==> w'.bus.inboxes[other] == w.bus.inboxes[other])
            && (forall other :: other in w.polled && other != id ==> w'.polled[other] == w.polled[other])
  {
  }

  lemma AllTaken(taken: seq<Message>, left: seq<Message>, polled: seq<Message>, inbox: seq<Message>,
                 addressed: seq<Message>)
    requires taken + left == polled + inbox == addressed && |left| == 0
    ensures taken == addressed
  {
  }

  lemma PollEmpties(w: World, id: Id, max: nat, mac: Mac)
    requires id in w.bus.inboxes && id in w.since && id in w.polled && Balanced(w, id) && |w.bus.inboxes[id]| <= max
    ensures id in Step(w, Polling(id, max), mac).polled
    ensures Step(w, Polling(id, max), mac).polled[id] == Addressed(w.log[w.since[id]..], id)
  {
    PollHandsOver(w, id, max, mac);
    var w' := Step(w, Polling(id, max), mac);
    AllTaken(w'.polled[id], w'.bus.inboxes[id], w.polled[id], w.bus.inboxes[id],
             Addressed(w.log[w.since[id]..], id));
  }

  /** Whoever polls for enough has got everything that was sent to it since it registered. */
  lemma PollCatchesUp(events: seq<Event>, id: Id, max: nat, mac: Mac)
    requires id in Run(events, mac).bus.agents
    requires id in Run(events, mac).bus.inboxes ==> |Run(events, mac).bus.inboxes[id]| <= max
    ensures var w, w' := Run(events, mac), Step(Run(events, mac), Polling(id, max), mac);
            && id in w.since && w.since[id] <= |w.log|
            && id in w'.polled && w'.polled[id] == Addressed(w.log[w.since[id]..], id)
  {
    EveryRunIsConsistent(events, mac);
    assert Balanced(Run(events, mac), id);
    PollEmpties(Run(events, mac), id, max, mac);
  }

  /** The agents to which a message of this kind, sender and receiver goes. */
  ghost predicate Receives(kind: Kind, from: Id, to: Id, id: Id) {
    (kind == Broadcast && id != from) || (kind != Broadcast && id == to)
  }

  /** An accepted message is logged and put at the end of the inboxes of exactly its receivers. */
  ghost predicate Delivers(w: World, w': World, kind: Kind, from: Id, to: Id, msg: Message, freshId: string) {
    && |w'.log| == |w.log| + 1 && w.log <= w'.log
    && (var m := w'.log[|w.log|];
        && m.from == from && m.to == to && m.kind == kind && m.content == msg.content && m.taskId == msg.taskId
        && m.id == (if msg.id == "" then freshId else msg.id)
        && w'.bus.inboxes.Keys == w.bus.inboxes.Keys
        && forall id :: id in w.bus.inboxes ==>
             w'.bus.inboxes[id] == w.bus.inboxes[id] + if Receives(kind, from, to, id) then [m] else [])
    && w'.bus.agents == w.bus.agents && w'.bus.totalMessages == w.bus.totalMessages + 1
    && w'.since == w.since && w'.polled == w.polled
  }

  lemma AfterSendDelivers(w: World, msg: Message, freshId: string, mac: Mac)
    ensures var w' := AfterSend(w, msg, freshId, mac);
            if msg.from in w.bus.agents && (msg.kind == Broadcast || msg.to in w.bus.agents)
            then Delivers(w, w', msg.kind, msg.from, msg.to, msg, freshId) else w' == w
  {
  }

  /** A message is accepted exactly from a live agent, to all or to a live agent; otherwise nothing happens. */
  lemma SendDelivers(w: World, msg: Message, freshId: string, mac: Mac)
    ensures var w' := Step(w, Sending(msg, freshId), mac);
            if msg.from in w.bus.agents && (msg.kind == Broadcast || msg.to in w.bus.agents)
            then Delivers(w, w', msg.kind, msg.from, msg.to, msg, freshId) else w' == w
  {
    AfterSendDelivers(w, msg, freshId, mac);
  }

  lemma BroadcastDelivers(w: World, msg: Message, freshId: string, mac: Mac)
    ensures var w' := Step(w, Broadcasting(msg, freshId), mac);
            if msg.from in w.bus.agents then Delivers(w, w', Broadcast, msg.from, "", msg, freshId) else w' == w
  {
    AfterSendDelivers(w, AsBroadcast(msg), freshId, mac);
  }

  /** Registering opens an empty inbox, removing closes it, and neither touches another agent or the log. */
  lemma RegistrationExactly(w: World, id: Id, mac: Mac)
    ensures var w' := Step(w, Registering(id), mac);
            && w'.bus.agents == w.bus.agents + {id} && w'.bus.inboxes == w.bus.inboxes[id := []]
            && w'.log == w.log && w'.bus.lastAuditHash == w.bus.lastAuditHash && w'.bus.globalSeq == w.bus.globalSeq
    ensures var w' := Step(w, Unregistering(id), mac);
            && w'.bus.agents == w.bus.agents - {id} && w'.bus.inboxes == w.bus.inboxes - {id}
            && w'.log == w.log && w'.bus.lastAuditHash == w.bus.lastAuditHash && w'.bus.globalSeq == w.bus.globalSeq
  {
  }

  // ----- the hash chain is evidence of the whole log

  lemma NoLaterBar(s: string, a: string, b: string)
    requires s == a + "|" + b && '|' !in b
    ensures s[|a|] == '|' && forall k :: |a| < k < |s| ==> s[k] != '|'
  {
  }

  lemma LastField(a: string, b: string, c: string, d: string)
    requires a + "|" + b == c + "|" + d && '|' !in b && '|' !in d
    ensures a == c && b == d
  {
    var s := a + "|" + b;
    NoLaterBar(s, a, b);
    NoLaterBar(s, c, d);
    assert a == s[..|a|] && c == s[..|c|] && b == s[|a| + 1..] && d == s[|c| + 1..];
  }

  lemma {:induction false} DecimalDigits(n: nat)
    ensures '|' !in Decimal(n) && Decimal(n) != []
  {
    if n < 10 {
    } else {
      DecimalDigits(n / 10);
    }
  }

  lemma {:induction false} DecimalInjective(m: nat, n: nat)
    requires Decimal(m) == Decimal(n)
    ensures m == n
  {
    var s := Decimal(m);
    if m >= 10 {
      DecimalDigits(m / 10);
    }
    if n >= 10 {
      DecimalDigits(n / 10);
    }
    assert s[|s| - 1] == DIGITS[m % 10] == DIGITS[n % 10];
    if m >= 10 && n >= 10 {
      assert Decimal(m / 10) == s[..|s| - 1] == Decimal(n / 10);
      DecimalInjective(m / 10, n / 10);
    }
  }

  ghost predicate IsDigit(c: char) {
    '0' <= c <= '9'
  }

  /** The number that a row of digits stands for. */
  function ValueOf(s: string): int {
    if s == "" then 0 else 10 * ValueOf(s[..|s| - 1]) + (s[|s| - 1] as int - '0' as int)
  }

  /** Decimal writes a number in digits, without leading zeros. */
  lemma {:induction false} DecimalExactly(n: nat)
    ensures ValueOf(Decimal(n)) == n && forall i :: 0 <= i < |Decimal(n)| ==> IsDigit(Decimal(n)[i])
    ensures Decimal(n) != "" && (n > 0 ==> Decimal(n)[0] != '0')
  {
    var last := DIGITS[n % 10];
    assert last as int - '0' as int == n % 10 && IsDigit(last);
    if n < 10 {
      assert Decimal(n)[..0] == "";
    } else {
      DecimalExactly(n / 10);
      assert Decimal(n)[..|Decimal(n)| - 1] == Decimal(n / 10);
    }
  }

  /** The record of a task result numbered 12, behind the digest "ff". */
  lemma RecordOfExample(m: Message)
    requires m.id == "msg-1" && m.from == "a" && m.to == "b" && m.kind == TaskResult && m.content == "hi"
    requires m.seqNo == 12
    ensures Record(m, "ff") == "msg-1|a|b|3|hi|12|ff"
  {
    assert Decimal(3) == "3" && Decimal(1) == "1" && Decimal(12) == "12";
  }

  /** Digests are written in hexadecimal. */
  ghost predicate HexDigests(mac: Mac) {
    forall x :: HexDigest(mac, x)
  }

  ghost predicate HexDigest(mac: Mac, x: string) {
    mac(x) != "" && '|' !in mac(x)
  }

  /** Two messages with different records and the same digest. */
  ghost predicate Collision(m: Message, n: Message) {
    m.hmac == n.hmac && Record(m, m.auditHash) != Record(n, n.auditHash)
  }

  ghost predicate Collide(log: seq<Message>, log': seq<Message>) {
    exists i, j :: 0 <= i < |log| && 0 <= j < |log'| && Collision(log[i], log'[j])
  }

  lemma SameDigest(m: Message, n: Message)
    requires '|' !in m.auditHash && '|' !in n.auditHash
    requires m.hmac == n.hmac && !Collision(m, n)
    ensures Body(m) == Body(n) && m.auditHash == n.auditHash && m.seqNo == n.seqNo
  {
    LastField(Body(m), m.auditHash, Body(n), n.auditHash);
    DecimalDigits(m.seqNo);
    DecimalDigits(n.seqNo);
    LastField(Head(m), Decimal(m.seqNo), Head(n), Decimal(n.seqNo));
    DecimalInjective(m.seqNo, n.seqNo);
  }

  lemma DigestHasNoBar(log: seq<Message>, i: nat, mac: Mac)
    requires HexDigests(mac) && Chained(log, mac) && i < |log|
    ensures '|' !in log[i].auditHash && log[i].hmac != ""
  {
    assert Linked(log, i, mac);
    assert HexDigest(mac, Record(log[i], log[i].auditHash));
    if i > 0 {
      assert Linked(log, i - 1, mac);
      assert HexDigest(mac, Record(log[i - 1], log[i - 1].auditHash));
    }
  }

  ghost predicate SameBody(m: Message, n: Message) {
    Body(m) == Body(n)
  }

  ghost predicate SameBodies(log: seq<Message>, log': seq<Message>) {
    |log| == |log'| && forall i :: 0 <= i < |log| ==> SameBody(log[i], log'[i])
  }

  /** Equal digests carry over to the previous position. */
  lemma SameDigestAt(log: seq<Message>, log': seq<Message>, i: nat, j: nat, mac: Mac)
    requires HexDigests(mac) && Chained(log, mac) && Chained(log', mac) && !Collide(log, log')
    requires i < |log| && j < |log'| && log[i].hmac == log'[j].hmac
    ensures SameBody(log[i], log'[j]) && (i + 1) % WORD == (j + 1) % WORD
    ensures LastDigest(log[..i]) == LastDigest(log'[..j])
  {
    assert Linked(log, i, mac) && Linked(log', j, mac);
    DigestHasNoBar(log, i, mac);
    DigestHasNoBar(log', j, mac);
    SameDigest(log[i], log'[j]);
  }

  lemma {:induction false} ChainDeterminesPrefix(log: seq<Message>, log': seq<Message>, i: nat, mac: Mac)
    requires HexDigests(mac) && Chained(log, mac) && Chained(log', mac) && !Collide(log, log')
    requires i < |log| && i < |log'| && log[i].hmac == log'[i].hmac
    ensures forall j :: 0 <= j <= i ==> SameBody(log[j], log'[j])
  {
    SameDigestAt(log, log', i, i, mac);
    if i == 0 {
    } else {
      ChainDeterminesPrefix(log, log', i - 1, mac);
    }
  }

  /** Two logs with the same last digest have the same length and the same record everywhere, or they
      hold a collision of the keyed hash. */
  lemma LastDigestDeterminesLog(log: seq<Message>, log': seq<Message>, mac: Mac)
    requires HexDigests(mac) && Chained(log, mac) && Chained(log', mac)
    requires |log| < WORD && |log'| < WORD && LastDigest(log) == LastDigest(log')
    ensures SameBodies(log, log') || Collide(log, log')
  {
    if log != [] {
      DigestHasNoBar(log, |log| - 1, mac);
    }
    if log' != [] {
      DigestHasNoBar(log', |log'| - 1, mac);
    }
    if log != [] && log' != [] && !Collide(log, log') {
      SameDigestAt(log, log', |log| - 1, |log'| - 1, mac);
      ChainDeterminesPrefix(log, log', |log| - 1, mac);
    }
  }

  /** The same for the bus itself: the digest it holds determines the bodies it has accepted, unless
      the two runs hold a collision. */
  lemma LastDigestDeterminesRun(events: seq<Event>, events': seq<Event>, mac: Mac)
    requires HexDigests(mac)
    requires |Run(events, mac).log| < WORD && |Run(events', mac).log| < WORD
    requires Run(events, mac).bus.lastAuditHash == Run(events', mac).bus.lastAuditHash
    ensures SameBodies(Run(events, mac).log, Run(events', mac).log)
         || Collide(Run(events, mac).log, Run(events', mac).log)
  {
    EveryRunIsConsistent(events, mac);
    EveryRunIsConsistent(events', mac);
    LastDigestDeterminesLog(Run(events, mac).log, Run(events', mac).log, mac);
  }

  // ----- the fields behind a record

  lemma NoEarlierBar(s: string, a: string, b: string)
    requires s == a + "|" + b && '|' !in a
    ensures s[|a|] == '|' && forall k :: 0 <= k < |a| ==> s[k] != '|'
  {
  }

  lemma FirstField(a: string, b: string, c: string, d: string)
    requires a + "|" + b == c + "|" + d && '|' !in a && '|' !in c
    ensures a == c && b == d
  {
    var s := a + "|" + b;
    NoEarlierBar(s, a, b);
    NoEarlierBar(s, c, d);
    assert a == s[..|a|] && c == s[..|c|] && b == s[|a| + 1..] && d == s[|c| + 1..];
  }

  ghost predicate BarFree(m: Message) {
    '|' !in m.id && '|' !in m.from && '|' !in m.to
  }

  /** The fields that a record is made of. */
  ghost predicate SameFields(m: Message, n: Message) {
    m.id == n.id && m.from == n.from && m.to == n.to && m.kind == n.kind && m.content == n.content && m.seqNo == n.seqNo
  }

  /** The head, field by field from the front. */
  lemma HeadFields(m: Message)
    ensures Head(m) == m.id + "|" + (m.from + "|" + (m.to + "|" + (Decimal(KindNumber(m.kind)) + "|" + m.content)))
  {
  }

  lemma KindNumberInjective(k: Kind, l: Kind)
    requires KindNumber(k) == KindNumber(l)
    ensures k == l
  {
  }

  lemma HeadDeterminesFields(m: Message, n: Message)
    requires Head(m) == Head(n) && BarFree(m) && BarFree(n)
    ensures m.id == n.id && m.from == n.from && m.to == n.to && m.kind == n.kind && m.content == n.content
  {
    var k, l := Decimal(KindNumber(m.kind)), Decimal(KindNumber(n.kind));
    HeadFields(m);
    HeadFields(n);
    FirstField(m.id, m.from + "|" + (m.to + "|" + (k + "|" + m.content)),
               n.id, n.from + "|" + (n.to + "|" + (l + "|" + n.content)));
    FirstField(m.from, m.to + "|" + (k + "|" + m.content), n.from, n.to + "|" + (l + "|" + n.content));
    FirstField(m.to, k + "|" + m.content, n.to, l + "|" + n.content);
    DecimalDigits(KindNumber(m.kind));
    DecimalDigits(KindNumber(n.kind));
    FirstField(k, m.content, l, n.content);
    DecimalInjective(KindNumber(m.kind), KindNumber(n.kind));
    KindNumberInjective(m.kind, n.kind);
  }

  /** Records of messages without a bar in their ids agree exactly when their fields do; the content may hold
      bars. */
  lemma BodyDeterminesFields(m: Message, n: Message)
    requires BarFree(m) && BarFree(n)
    ensures SameBody(m, n) <==> SameFields(m, n)
  {
    if SameBody(m, n) {
      DecimalDigits(m.seqNo);
      DecimalDigits(n.seqNo);
      LastField(Head(m), Decimal(m.seqNo), Head(n), Decimal(n.seqNo));
      DecimalInjective(m.seqNo, n.seqNo);
      HeadDeterminesFields(m, n);
    }
  }

  /** With a bar in an id, different messages can have one record: "a" and "b|c" for "a|b" and "c". */
  lemma BarsCanConfuse(m: Message, n: Message)
    requires m.id == "a" && m.from == "b|c" && n == m.(id := "a|b", from := "c")
    ensures SameBody(m, n) && !SameFields(m, n)
  {
    assert m.id + "|" + m.from == n.id + "|" + n.from;
  }

  /** So the last digest determines the fields of every message, if no id holds a bar. */
  lemma LastDigestDeterminesFields(events: seq<Event>, events': seq<Event>, mac: Mac)
    requires HexDigests(mac)
    requires |Run(events, mac).log| < WORD && |Run(events', mac).log| < WORD
    requires forall m :: m in Run(events, mac).log || m in Run(events', mac).log ==> BarFree(m)
    requires Run(events, mac).bus.lastAuditHash == Run(events', mac).bus.lastAuditHash
    ensures var log, log' := Run(events, mac).log, Run(events', mac).log;
            || (|log| == |log'| && forall i :: 0 <= i < |log| ==> SameFields(log[i], log'[i]))
            || Collide(log, log')
  {
    var log, log' := Run(events, mac).log, Run(events', mac).log;
    LastDigestDeterminesRun(events, events', mac);
    if SameBodies(log, log') {
      forall i | 0 <= i < |log| ensures SameFields(log[i], log'[i]) {
        assert SameBody(log[i], log'[i]);
        BodyDeterminesFields(log[i], log'[i]);
      }
    }
  }
}
