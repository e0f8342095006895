/** The responder: the service's records, which of them answer a question, and what is
    announced. */
module Advertise {
  import opened Bytes
  import opened NameReader
  import opened NameWriter
  import opened Records
  import opened Messages
  import opened Parser
  import opened Goodbye

  // ----- Names

  const WLR_REMOTE: Label := [0x5F, 0x77, 0x6C, 0x72, 0x2D, 0x72, 0x65, 0x6D, 0x6F, 0x74, 0x65]
  const UDP: Label := [0x5F, 0x75, 0x64, 0x70]
  const LOCAL: Label := [0x6C, 0x6F, 0x63, 0x61, 0x6C]

  /** `_wlr-remote._udp.local.` */
  const SERVICE_NAME: NameText := WLR_REMOTE + [DOT] + UDP + [DOT] + LOCAL + [DOT]
  /** `.local.` */
  const QUALIFIED_SUFFIX: seq<byte> := [DOT] + LOCAL + [DOT]
  /** `_services._dns-sd._udp.local.` */
  const DNS_SD_SERVICE_INSTANCE: NameText :=
    SERVICES[0] + [DOT] + SERVICES[1] + [DOT] + SERVICES[2] + [DOT] + SERVICES[3] + [DOT]

  function InstanceName(hostname: seq<byte>): (n: NameText) {
    hostname + [DOT] + SERVICE_NAME
  }

  function QualifiedName(hostname: seq<byte>): (n: NameText) {
    hostname + QUALIFIED_SUFFIX
  }

  // ----- The service as a value

  /** What a service is made from; an address that was not found is `None`. */
  datatype Service = Service(hostname: seq<byte>, v4: Option<Ipv4>, v6: Option<Ipv6>, port: u16) {
    function PtrRecord(): (r: Record) {
      Record(SERVICE_NAME, Ptr(InstanceName(hostname)), CLASS_IN, 4500)
    }

    function SrvRecord(): (r: Record) {
      Record(InstanceName(hostname), Srv(0, 0, port, QualifiedName(hostname)), CLASS_IN, 120)
    }

    function ARecord(): (r: Record) {
      Record(QualifiedName(hostname), A(if v4.Some? then v4.value else seq(4, _ => 0)), CLASS_IN, 120)
    }

    function AaaaRecord(): (r: Record) {
      Record(QualifiedName(hostname), Aaaa(if v6.Some? then v6.value else seq(16, _ => 0)), CLASS_IN, 120)
    }

    function TxtRecord(): (r: Record) {
      Record(InstanceName(hostname), Txt([], []), CLASS_IN, 120)
    }

    function V4Records(): (rs: seq<Record>) {
      if v4.Some? then [ARecord()] else []
    }

    function V6Records(): (rs: seq<Record>) {
      if v6.Some? then [AaaaRecord()] else []
    }

    /** What goes with an answer of the given type (section 12 of RFC 6763), and the text record always. */
    function Additional(rtype: u16): (rs: seq<Record>)
      ensures |rs| <= 4
    {
      if rtype == TYPE_PTR then [SrvRecord()] + V4Records() + V6Records() + [TxtRecord()]
      else if rtype == TYPE_SRV then V4Records() + V6Records() + [TxtRecord()]
      else if rtype == TYPE_AAAA then V4Records() + [TxtRecord()]
      else if rtype == TYPE_A then V6Records() + [TxtRecord()]
      else if rtype == TYPE_TXT then [TxtRecord()]
      else []
    }

    /** The answer to a question and the records that go with it, if there is one. */
    function Choose(name: seq<byte>, rtype: u16): (r: Option<(Record, seq<Record>)>) {
      if StringEquals(name, DNS_SD_SERVICE_INSTANCE) then
        if rtype == TYPE_PTR || rtype == TYPE_ANY
        then Some((Record(DNS_SD_SERVICE_INSTANCE, Ptr(SERVICE_NAME), 0, 0), [])) else None
      else if StringEquals(name, SERVICE_NAME) then
        if rtype == TYPE_PTR || rtype == TYPE_ANY then Some((PtrRecord(), Additional(TYPE_PTR))) else None
      else if StringEquals(name, InstanceName(hostname)) then
        if rtype == TYPE_SRV || rtype == TYPE_ANY then Some((SrvRecord(), Additional(TYPE_SRV))) else None
      else if StringEquals(name, QualifiedName(hostname)) then
        if (rtype == TYPE_A || rtype == TYPE_ANY) && v4.Some? then Some((ARecord(), Additional(TYPE_A)))
        else if (rtype == TYPE_AAAA || rtype == TYPE_ANY) && v6.Some? then Some((AaaaRecord(), Additional(TYPE_AAAA)))
        else None
      else None
    }
  }

  /** The C library's bounded comparison of two runs of one length: it stops at a NUL both have. */
  predicate StrNEqual(a: seq<byte>, b: seq<byte>)
    requires |a| == |b|
  {
    a == [] || (a[0] == b[0] && (a[0] == 0 || StrNEqual(a[1..], b[1..])))
  }

  predicate StringEquals(name: seq<byte>, target: seq<byte>) {
    |name| == |target| && StrNEqual(name, target)
  }

  /** With no NUL in the target the comparison is equality of the names, case and all. */
  lemma {:induction false} StringEqualsIsEquality(name: seq<byte>, target: seq<byte>)
    requires 0 !in target
    ensures StringEquals(name, target) <==> name == target
  {
    if |name| == |target| && name != [] {
      assert target[0] in target;
      assert forall c :: c in target[1..] ==> c in target;
      StringEqualsIsEquality(name[1..], target[1..]);
      assert name == [name[0]] + name[1..] && target == [target[0]] + target[1..];
    }
  }

  // ----- The service object

  /** `advertise_service_t`, without its sockets. */
  class AdvertiseService {
    var serviceName: NameText
    var hostname: seq<byte>
    var serviceInstance: NameText
    var qualifiedHostname: NameText
    var v4: Option<Ipv4>
    var v6: Option<Ipv6>
    var port: u16
    var recordPtr: Record
    var recordSrv: Record
    var recordA: Record
    var recordAaaa: Record
    var recordTxt: Record

    ghost function Model(): (s: Service)
      reads this
    {
      Service(hostname, v4, v6, port)
    }

    /** The strings are those made for the hostname. */
    ghost predicate Named()
      reads this
    {
      serviceName == SERVICE_NAME && serviceInstance == InstanceName(hostname) && qualifiedHostname == QualifiedName(hostname)
    }

    ghost predicate Valid()
      reads this
    {
      Named() && 0 !in hostname && recordPtr == Model().PtrRecord() && recordSrv == Model().SrvRecord() && recordA == Model().ARecord()
      && recordAaaa == Model().AaaaRecord() && recordTxt == Model().TxtRecord()
    }

    /** Takes the strings in the form they are built to have; a C string has no NUL in it. */
    constructor (hostname: seq<byte>, v4: Option<Ipv4>, v6: Option<Ipv6>, port: u16)
      requires 0 !in hostname
      ensures Valid() && Model() == Service(hostname, v4, v6, port)
    {
      this.hostname, this.v4, this.v6, this.port := hostname, v4, v6, port;
      serviceName, serviceInstance, qualifiedHostname := SERVICE_NAME, InstanceName(hostname), QualifiedName(hostname);
      new;
      CreateMdnsRecords();
    }

    method CreateMdnsRecords()
      requires Named() && 0 !in hostname
      modifies `recordPtr, `recordSrv, `recordA, `recordAaaa, `recordTxt
      ensures Valid()
    {
      recordPtr := Record(serviceName, Ptr(serviceInstance), CLASS_IN, 4500);
      recordSrv := Record(serviceInstance, Srv(0, 0, port, qualifiedHostname), CLASS_IN, 120);
      recordA := Record(qualifiedHostname, A(if v4.Some? then v4.value else seq(4, _ => 0)), CLASS_IN, 120);
      recordAaaa := Record(qualifiedHostname, Aaaa(if v6.Some? then v6.value else seq(16, _ => 0)), CLASS_IN, 120);
      recordTxt := Record(serviceInstance, Txt([], []), CLASS_IN, 120);
    }

    /** The switch with its fall-through cases, filling an array of four. */
    method BuildAdditional(additional: array<Record>, rtype: u16) returns (count: nat)
      requires Valid() && additional.Length == 4
      modifies additional
      ensures count <= 4 && additional[..count] == Model().Additional(rtype)
    {
      count := 0;
      var fromPtr := rtype == TYPE_PTR;
      var fromSrv := fromPtr || rtype == TYPE_SRV || rtype == TYPE_AAAA;
      var fromA := fromSrv || rtype == TYPE_A;
      if fromPtr {
        additional[count] := recordSrv;
        count := count + 1;
      }
      if fromSrv && v4.Some? {
        additional[count] := recordA;
        count := count + 1;
      }
      if fromA && rtype != TYPE_AAAA && v6.Some? {
        additional[count] := recordAaaa;
        count := count + 1;
      }
      if fromA || rtype == TYPE_TXT {
        additional[count] := recordTxt;
        count := count + 1;
      }
    }
  }

  // ----- Answering

  const NAME_CAPACITY: nat := 256
  const SEND_CAPACITY: nat := 1024
  const ANNOUNCE_CAPACITY: nat := 2048

  /** What one callback leads to: nothing, or an attempt at a message and how it is sent. */
  datatype Reply = Silent | Reply(unicast: bool, length: Option<nat>)

  /** The message attempted in reply to a question of a received packet. */
  ghost function ReplyMessage(s: Service, m: seq<byte>, d: Delivery, stale: seq<byte>): (r: Option<Out>)
    ensures r.Some? ==> r.value.Valid() && |r.value.buf| == |stale|
  {
    var name := TextAt(m, d.nameOffset, NAME_CAPACITY);
    match s.Choose(name, d.rtype)
    case None => None
    case Some((answer, additional)) =>
      if d.rclass >= TOP_BIT then UnicastMessage(stale, d.id, d.rtype, answer.name, answer, [], additional)
      else MulticastMessage(stale, answer, [], additional, CLASS_IN, 60)
  }

  predicate ReplyDue(s: Service, m: seq<byte>, d: Delivery) {
    d.entry == Question && s.Choose(TextAt(m, d.nameOffset, NAME_CAPACITY), d.rtype).Some?
  }

  /** The branches that choose an answer. */
  method ChooseAnswer(service: AdvertiseService, name: seq<byte>, rtype: u16)
    returns (send: bool, answer: Record, additional: seq<Record>)
    requires service.Valid()
    ensures match service.Model().Choose(name, rtype)
            case None => !send
            case Some((a, more)) => send && answer == a && additional == more && answer.name == name
  {
    hide StrNEqual;
    send, answer, additional := false, service.recordPtr, [];
    var buffer := new Record[4];
    var count := 0;
    if StringEquals(name, DNS_SD_SERVICE_INSTANCE) {
      if rtype == TYPE_PTR || rtype == TYPE_ANY {
        StringEqualsIsEquality(name, DNS_SD_SERVICE_INSTANCE);
        answer := Record(name, Ptr(service.serviceName), 0, 0);
        send := true;
      }
    } else if StringEquals(name, service.serviceName) {
      StringEqualsIsEquality(name, service.serviceName);
      if rtype == TYPE_PTR || rtype == TYPE_ANY {
        answer := service.recordPtr;
        count := service.BuildAdditional(buffer, TYPE_PTR);
        send := true;
      }
    } else if StringEquals(name, service.serviceInstance) {
      StringEqualsIsEquality(name, service.serviceInstance);
      if rtype == TYPE_SRV || rtype == TYPE_ANY {
        answer := service.recordSrv;
        count := service.BuildAdditional(buffer, TYPE_SRV);
        send := true;
      }
    } else if StringEquals(name, service.qualifiedHostname) {
      StringEqualsIsEquality(name, service.qualifiedHostname);
      if (rtype == TYPE_A || rtype == TYPE_ANY) && service.v4.Some? {
        answer := service.recordA;
        count := service.BuildAdditional(buffer, TYPE_A);
        send := true;
      } else if (rtype == TYPE_AAAA || rtype == TYPE_ANY) && service.v6.Some? {
        answer := service.recordAaaa;
        count := service.BuildAdditional(buffer, TYPE_AAAA);
        send := true;
      }
    }
    additional := buffer[..count];
  }

  /** Chooses and builds the reply to one delivered entry; both buffers are reused from call to call. */
  method ServiceCallback(service: AdvertiseService, data: seq<byte>, d: Delivery, nameBuffer: array<byte>, sendBuffer: array<byte>)
    returns (reply: Reply)
    requires service.Valid() && nameBuffer.Length == NAME_CAPACITY && sendBuffer.Length == SEND_CAPACITY
    requires nameBuffer != sendBuffer
    modifies nameBuffer, sendBuffer
    ensures reply.Silent? <==> !ReplyDue(service.Model(), data, d)
    ensures reply.Reply? ==> reply.unicast == (d.rclass >= TOP_BIT)
                             && Built(ReplyMessage(service.Model(), data, d, old(sendBuffer[..])), reply.length, sendBuffer)
  {
    hide UnicastMessage, MulticastMessage, ReadName, Dotted, Cut;
    if d.entry != Question {
      return Silent;
    }
    var length, _, _ := Extract(data, d.nameOffset, nameBuffer, NAME_CAPACITY);
    var name := nameBuffer[..length];
    assert name == TextAt(data, d.nameOffset, NAME_CAPACITY);
    hide TextAt;
    var send, answer, additional := ChooseAnswer(service, name, d.rtype);
    if !send {
      return Silent;
    }
    if d.rclass >= TOP_BIT {
      var r := QueryAnswerUnicast(sendBuffer, d.id, d.rtype, answer.name, answer, [], additional);
      return Reply(true, r);
    } else {
      var r := QueryAnswerMulticast(sendBuffer, answer, [], additional);
      return Reply(false, r);
    }
  }

  /** Announces the service, or takes it back, once for each open socket; the same buffer is
      used for both. Returns the messages attempted, in order. */
  method AdvertiseAnnounce(service: AdvertiseService, goodbye: bool, v4Open: bool, v6Open: bool, buffer: array<byte>)
    returns (sent: seq<Option<seq<byte>>>)
    requires service.Valid() && buffer.Length == ANNOUNCE_CAPACITY
    modifies buffer
    ensures |sent| == (if v4Open then 1 else 0) + if v6Open then 1 else 0
    ensures forall m :: m in sent ==> Announces(service.Model(), goodbye, m)
  {
    hide Announces, Announcement;
    var chosen := new Record[4];
    var count := service.BuildAdditional(chosen, TYPE_PTR);
    var additional := chosen[..count];
    sent := [];
    if v4Open {
      var m := AnnounceOnce(service, goodbye, additional, buffer);
      sent := sent + [m];
    }
    if v6Open {
      var m := AnnounceOnce(service, goodbye, additional, buffer);
      sent := sent + [m];
    }
  }

  ghost function Announcement(s: Service, goodbye: bool, stale: seq<byte>): (r: Option<Out>)
    ensures r.Some? ==> r.value.Valid()
  {
    if goodbye then MulticastMessage(stale, s.PtrRecord(), [], s.Additional(TYPE_PTR), CLASS_IN, 0)
    else MulticastMessage(stale, s.PtrRecord(), [], s.Additional(TYPE_PTR), ANNOUNCE_CLASS, ANNOUNCE_TTL)
  }

  /** `m` is what comes of an announcement or goodbye in a buffer that held something. */
  ghost predicate Announces(s: Service, goodbye: bool, m: Option<seq<byte>>) {
    exists stale: seq<byte> :: |stale| == ANNOUNCE_CAPACITY && m == MessageBytes(Announcement(s, goodbye, stale))
  }

  ghost function MessageBytes(o: Option<Out>): (m: Option<seq<byte>>)
    requires o.Some? ==> o.value.Valid()
  {
    if o.None? then None else Some(o.value.buf[..o.value.pos])
  }

  /** The call through the announcing or the goodbye function. */
  method AnnounceOnce(service: AdvertiseService, goodbye: bool, additional: seq<Record>, buffer: array<byte>)
    returns (message: Option<seq<byte>>)
    requires service.Valid() && additional == service.Model().Additional(TYPE_PTR) && buffer.Length == ANNOUNCE_CAPACITY
    modifies buffer
    ensures Announces(service.Model(), goodbye, message)
  {
    hide MulticastMessage;
    ghost var stale := buffer[..];
    var r;
    if goodbye {
      r := GoodbyeMulticast(buffer, service.recordPtr, [], additional);
    } else {
      r := AnnounceMulticast(buffer, service.recordPtr, [], additional);
    }
    message := if r.None? then None else Some(buffer[..r.value]);
    assert message == MessageBytes(Announcement(service.Model(), goodbye, stale));
  }

  // ----- A received packet

  datatype Answered = Unanswered | Answered(unicast: bool, message: Option<seq<byte>>)

  /** What a question of packet `m` leads to, whatever the send buffer held. */
  ghost predicate Answers(s: Service, m: seq<byte>, d: Delivery, r: Answered) {
    if !ReplyDue(s, m, d) then r == Unanswered
    else
      r.Answered? && r.unicast == (d.rclass >= TOP_BIT)
      && exists stale: seq<byte> :: |stale| == SEND_CAPACITY && r.message == MessageBytes(ReplyMessage(s, m, d, stale))
  }

  method AnswerOnce(service: AdvertiseService, packet: seq<byte>, d: Delivery, nameBuffer: array<byte>, sendBuffer: array<byte>)
    returns (r: Answered)
    requires service.Valid() && nameBuffer.Length == NAME_CAPACITY && sendBuffer.Length == SEND_CAPACITY
    requires nameBuffer != sendBuffer
    modifies nameBuffer, sendBuffer
    ensures Answers(service.Model(), packet, d, r)
  {
    hide ReplyMessage;
    ghost var stale := sendBuffer[..];
    var reply := ServiceCallback(service, packet, d, nameBuffer, sendBuffer);
    if reply.Silent? {
      return Unanswered;
    }
    r := Answered(reply.unicast, if reply.length.None? then None else Some(sendBuffer[..reply.length.value]));
    assert r.message == MessageBytes(ReplyMessage(service.Model(), packet, d, stale));
  }

  /** Listens to one packet and answers its questions in order; its records get no answer. */
  method AdvertiseRespondRequest(service: AdvertiseService, packet: seq<byte>, nameBuffer: array<byte>, sendBuffer: array<byte>)
    returns (replies: seq<Answered>)
    requires Listenable(packet)
    requires service.Valid() && nameBuffer.Length == NAME_CAPACITY && sendBuffer.Length == SEND_CAPACITY
    requires nameBuffer != sendBuffer
    modifies nameBuffer, sendBuffer
    ensures |replies| == |Heard(packet).0|
    ensures forall i :: 0 <= i < |replies| ==> Answers(service.Model(), packet, Heard(packet).0[i], replies[i])
  {
    hide Answers, Heard;
    var total, questions, records := SocketListen(packet);
    replies := [];
    var i := 0;
    while i < |questions|
      invariant 0 <= i <= |questions| && |replies| == i
      invariant forall j :: 0 <= j < i ==> Answers(service.Model(), packet, questions[j], replies[j])
    {
      var r := AnswerOnce(service, packet, questions[i], nameBuffer, sendBuffer);
      replies := replies + [r];
      i := i + 1;
    }
  }
}
