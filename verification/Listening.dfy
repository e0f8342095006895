/** What the listener hears of the questions of a packet, for every packet it may be given. */
module Listening {
  import opened Bytes
  import opened NameReader
  import opened NameCodec
  import opened Parser

  // ----- The name that is passed over in responses

  /** `_services._dns-sd._udp.local.`, in letters of either case. */
  ghost predicate NamesServices(m: seq<byte>, at: nat) {
    match ReadName(m, at, MAX_FETCHES)
    case None => false
    case Some(ls) =>
      |ls| == 4 && SameLetters(Ascii("_services"), ls[0]) && SameLetters(Ascii("_dns-sd"), ls[1])
      && SameLetters(Ascii("_udp"), ls[2]) && SameLetters(Ascii("local"), ls[3])
  }

  lemma ServicesSpelled()
    ensures SERVICES == [Ascii("_services"), Ascii("_dns-sd"), Ascii("_udp"), Ascii("local")]
  {
    assert SERVICES[0] == Ascii("_services");
    assert SERVICES[1] == Ascii("_dns-sd");
    assert SERVICES[2] == Ascii("_udp");
    assert SERVICES[3] == Ascii("local");
  }

  lemma DirectIn(m: seq<byte>, at: nat, l: Label)
    requires 1 <= |l| <= 63 && at + |l| + 1 <= |m| && m[at] == |l| && m[at + 1..at + |l| + 1] == l
    ensures DirectLabel(m, at, l)
  {
    assert m[at..at + |l| + 1] == [m[at]] + m[at + 1..at + |l| + 1];
  }

  lemma QueryLabels()
    ensures |SERVICES| == 4 && |SERVICES_QUERY| == 46 && SERVICES_QUERY[41] == 0
    ensures DirectLabel(SERVICES_QUERY, 12, SERVICES[0]) && |SERVICES[0]| == 9
    ensures DirectLabel(SERVICES_QUERY, 22, SERVICES[1]) && |SERVICES[1]| == 7
    ensures DirectLabel(SERVICES_QUERY, 30, SERVICES[2]) && |SERVICES[2]| == 4
    ensures DirectLabel(SERVICES_QUERY, 35, SERVICES[3]) && |SERVICES[3]| == 5
  {
    hide DirectLabel;
    var q := SERVICES_QUERY;
    assert q[12] == 9 && q[13..22] == SERVICES[0];
    assert q[22] == 7 && q[23..30] == SERVICES[1];
    assert q[30] == 4 && q[31..35] == SERVICES[2];
    assert q[35] == 5 && q[36..41] == SERVICES[3];
    DirectIn(q, 12, SERVICES[0]);
    DirectIn(q, 22, SERVICES[1]);
    DirectIn(q, 30, SERVICES[2]);
    DirectIn(q, 35, SERVICES[3]);
  }

  /** The name in the constant query is the services-discovery name. */
  lemma QueryNamesServices()
    ensures ReadName(SERVICES_QUERY, 12, MAX_FETCHES) == Some(SERVICES)
  {
    hide ReadName, NameAt, DirectLabel, SERVICES_QUERY, SERVICES;
    QueryLabels();
    var q := SERVICES_QUERY;
    NameOverLabel(q, 12, SERVICES, MAX_JUMPS);
    NameOverLabel(q, 22, SERVICES[1..], MAX_JUMPS);
    NameOverLabel(q, 30, SERVICES[2..], MAX_JUMPS);
    NameOverLabel(q, 35, SERVICES[3..], MAX_JUMPS);
    assert SERVICES[1..][1..] == SERVICES[2..] && SERVICES[2..][1..] == SERVICES[3..] && SERVICES[3..][1..] == [];
    RootAt(q, 41);
    ReadNameExact(q, 12, SERVICES, MAX_FETCHES);
  }

  lemma RootAt(m: seq<byte>, at: nat)
    requires at < |m| && m[at] == 0
    ensures NameAt(m, at, [], MAX_JUMPS)
  {
  }

  lemma ServicesNameExactly(m: seq<byte>, at: nat)
    ensures IsServicesName(m, at) <==> NamesServices(m, at)
  {
    hide ReadName, StrNCaseEqual, SERVICES_QUERY, SameLetters, SERVICES, SameName;
    QueryNamesServices();
    ServicesSpelled();
    SameNameExact(m, at, SERVICES_QUERY, 12, MAX_FETCHES);
    var read := ReadName(m, at, MAX_FETCHES);
    if read.Some? && |read.value| == 4 {
      forall i | 0 <= i < 4 && |read.value[i]| == |SERVICES[i]|
        ensures StrNCaseEqual(read.value[i], SERVICES[i]) <==> SameLetters(SERVICES[i], read.value[i])
      {
        NoNulIn(i);
        StrNCaseEqualExact(read.value[i], SERVICES[i]);
        StrNCaseEqualExact(SERVICES[i], read.value[i]);
        StrNCaseEqualNoNul(SERVICES[i], read.value[i]);
      }
      SameLength(read.value);
    }
  }

  lemma NoNulIn(i: nat)
    requires i < 4
    ensures |SERVICES| == 4 && 0 !in SERVICES[i]
  {
  }

  lemma SameLength(ls: seq<Label>)
    requires |ls| == 4
    ensures |SERVICES| == 4 && forall i :: 0 <= i < 4 && SameLetters(SERVICES[i], ls[i]) ==> |ls[i]| == |SERVICES[i]|
  {
  }

  // ----- Questions

  /** Where a question's name begins and ends; its type and class follow. */
  datatype QuestionAt = QuestionAt(at: nat, end: nat)

  /** Class IN or ANY, with or without the unicast bit. */
  predicate ClassHeard(m: seq<byte>, e: nat)
    requires e + 4 <= |m|
  {
    (m[e + 2] == 0 || m[e + 2] == 0x80) && (m[e + 3] == 1 || m[e + 3] == 255)
  }

  /** Questions of a class that is heard lie one after another from `at`. */
  predicate Lie(m: seq<byte>, at: nat, qs: seq<QuestionAt>)
    decreases |qs|
  {
    qs == []
    || (qs[0].at == at && NameEnd(m, at, MAX_FETCHES) == Some(qs[0].end) && qs[0].end + 4 <= |m|
        && ClassHeard(m, qs[0].end) && Lie(m, qs[0].end + 4, qs[1..]))
  }

  function After(at: nat, qs: seq<QuestionAt>): (next: nat) {
    if qs == [] then at else qs[|qs| - 1].end + 4
  }

  /** The questions `qs` are all of `n`, or what follows them ends the listening: a name that
      cannot be skipped, or a question of another class, which is passed over. */
  predicate StopsAt(m: seq<byte>, at: nat, qs: seq<QuestionAt>, n: nat, records: nat) {
    var next := After(at, qs);
    |qs| <= n
    && if |qs| == n then records == next
       else match NameEnd(m, next, MAX_FETCHES)
            case None => records == next
            case Some(e) => e + 4 <= |m| && !ClassHeard(m, e) && records == e + 4
  }

  /** What the callback is told of a question. */
  function Told(m: seq<byte>, id: u16, q: QuestionAt): (d: Delivery) {
    if q.at <= q.end && q.end + 4 <= |m| then
      Delivery(Question, id, m[q.end] as int * 0x100 + m[q.end + 1], m[q.end + 2] as int * 0x100 + m[q.end + 3], 0,
               q.at, q.end - q.at, q.at, q.end - q.at)
    else Delivery(Question, id, 0, 0, 0, 0, 0, 0, 0)
  }

  /** All the questions of a query; of a message with flags those that do not name services discovery. */
  ghost function AllTold(m: seq<byte>, id: u16, flags: u16, qs: seq<QuestionAt>): (ds: seq<Delivery>) {
    if qs == [] then []
    else (if flags != 0 && NamesServices(m, qs[0].at) then [] else [Told(m, id, qs[0])]) + AllTold(m, id, flags, qs[1..])
  }

  lemma {:induction false} QueriesAreTold(m: seq<byte>, id: u16, qs: seq<QuestionAt>)
    ensures |AllTold(m, id, 0, qs)| == |qs| && forall i :: 0 <= i < |qs| ==> AllTold(m, id, 0, qs)[i] == Told(m, id, qs[i])
  {
    hide NamesServices, Told;
    if qs != [] {
      QueriesAreTold(m, id, qs[1..]);
    }
  }

  lemma ClassIsHeard(m: seq<byte>, e: nat)
    requires e + 4 <= |m|
    ensures AcceptedClass(Get16(m, e + 2)) <==> ClassHeard(m, e)
  {
    var c := Get16(m, e + 2);
    assert c == m[e + 2] as int * 0x100 + m[e + 3];
    if m[e + 2] >= 0x80 {
      assert c % 0x8000 == (m[e + 2] as int - 0x80) * 0x100 + m[e + 3];
    } else {
      assert c % 0x8000 == c;
    }
  }

  lemma AfterCons(at: nat, qs: seq<QuestionAt>)
    requires qs != []
    ensures After(at, qs) == After(qs[0].end + 4, qs[1..])
  {
  }

  /** The listener hears exactly the questions up to the first that ends the listening. */
  lemma {:induction false} RunIsTold(m: seq<byte>, at: nat, id: u16, flags: u16, qs: seq<QuestionAt>, n: nat, records: nat)
    requires QuestionsComplete(m, at, n) && Lie(m, at, qs) && StopsAt(m, at, qs, n, records)
    ensures ListenQuestions(m, at, id, flags, n) == (AllTold(m, id, flags, qs), records)
    decreases |qs|
  {
    hide NameEnd, SameName, NamesServices, AcceptedClass, Get16, ClassHeard;
    if n > 0 && NameEnd(m, at, MAX_FETCHES).Some? {
      var e := NameEnd(m, at, MAX_FETCHES).value;
      ClassIsHeard(m, e);
      NameEndInside(m, at, MAX_FETCHES);
      if qs != [] {
        AfterCons(at, qs);
        RunIsTold(m, e + 4, id, flags, qs[1..], n - 1, records);
        ServicesNameExactly(m, at);
        ToldIs(m, id, qs[0]);
      }
    }
  }

  lemma ToldIs(m: seq<byte>, id: u16, q: QuestionAt)
    requires q.at <= q.end && q.end + 4 <= |m|
    ensures Told(m, id, q) == Delivery(Question, id, Get16(m, q.end), Get16(m, q.end + 2), 0, q.at, q.end - q.at, q.at, q.end - q.at)
  {
  }

  /** In every packet there is such a run of questions. */
  lemma {:induction false} RunExists(m: seq<byte>, at: nat, n: nat) returns (qs: seq<QuestionAt>, records: nat)
    requires QuestionsComplete(m, at, n)
    ensures Lie(m, at, qs) && StopsAt(m, at, qs, n, records)
    decreases n
  {
    hide ClassHeard, NameEnd;
    qs, records := [], at;
    if n > 0 && NameEnd(m, at, MAX_FETCHES).Some? {
      var e := NameEnd(m, at, MAX_FETCHES).value;
      ClassIsHeard(m, e);
      if ClassHeard(m, e) {
        var rest;
        rest, records := RunExists(m, e + 4, n - 1);
        qs := [QuestionAt(at, e)] + rest;
        assert qs[1..] == rest;
        AfterCons(at, qs);
      } else {
        records := e + 4;
      }
    }
  }

  /** Of every packet with complete questions the listener hears the questions, of class IN or
      ANY, up to the first that is not or cannot be read, with their types, classes and places;
      in a message with flags those for services discovery are passed over; and the records are
      looked for right after the last question looked at. */
  lemma ListenerHearsExactly(m: seq<byte>) returns (qs: seq<QuestionAt>, records: nat)
    requires Listenable(m)
    ensures Lie(m, 12, qs) && StopsAt(m, 12, qs, Get16(m, 4), records)
    ensures Heard(m).0 == AllTold(m, Get16(m, 0), Get16(m, 2), qs)
    ensures Heard(m).1 == ParseSections(m, records, Get16(m, 0), Get16(m, 6), Get16(m, 8), Get16(m, 10))
  {
    hide ParseSections, Lie, StopsAt, AllTold, Get16;
    qs, records := RunExists(m, 12, Get16(m, 4));
    RunIsTold(m, 12, Get16(m, 0), Get16(m, 2), qs, Get16(m, 4), records);
  }
}
