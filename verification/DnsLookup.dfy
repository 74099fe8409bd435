/** A lookup from its first query to its answer: what is asked when, and which bytes of a response are the address. */
module DnsLookup {
  import opened Bytes
  import opened SystemTime
  import opened DnsNames
  import opened DnsClient
  import opened DnsRuns

  // ----- responses, as a server writes them -----

  /** A resource record: its name is that of the question, by a pointer, or a name of its own. */
  datatype Record = Record(name: Option<seq<Label>>, kind: uint16, rclass: uint16, ttl: uint32, data: seq<byte>)

  function Word(x: uint16): seq<byte> {
    [High(x), Low(x)]
  }

  predicate Writable(r: Record) {
    |r.data| < 0x1_0000 && (r.name.Some? ==> Parsable(r.name.value))
  }

  function NameBytes(r: Record): seq<byte>
    requires Writable(r)
  {
    if r.name.None? then [COMPRESSION_TAG, HEADER_SIZE] else Encoded(r.name.value)
  }

  function Fields(r: Record): seq<byte>
    requires Writable(r)
  {
    Word(r.kind) + Word(r.rclass) + Word(r.ttl / 0x1_0000) + Word(r.ttl % 0x1_0000) + Word(|r.data|) + r.data
  }

  function RecordBytes(r: Record): seq<byte>
    requires Writable(r)
  {
    NameBytes(r) + Fields(r)
  }

  predicate AllWritable(rs: seq<Record>) {
    forall i :: 0 <= i < |rs| ==> Writable(rs[i])
  }

  function Records(rs: seq<Record>): seq<byte>
    requires AllWritable(rs)
  {
    if rs == [] then [] else RecordBytes(rs[0]) + Records(rs[1..])
  }

  /** An address of the kind that is looked for. */
  predicate Fits(r: Record, host: HostType) {
    (host == Host4 && r.kind == 1 && |r.data| == 4) || (host == Host6 && r.kind == 28 && |r.data| == 16)
  }

  /** The first record that fits, or the number of records. */
  function FirstFit(rs: seq<Record>, host: HostType): (j: nat)
    ensures j <= |rs| && (j < |rs| ==> Fits(rs[j], host))
    ensures forall i :: 0 <= i < j ==> !Fits(rs[i], host)
  {
    if rs == [] || Fits(rs[0], host) then 0 else 1 + FirstFit(rs[1..], host)
  }

  /** The bytes `s` are at place `p` of the message. */
  predicate At(m: seq<byte>, p: nat, s: seq<byte>) {
    p + |s| <= |m| && m[p..p + |s|] == s
  }

  lemma AtBoth(m: seq<byte>, p: nat, a: seq<byte>, b: seq<byte>)
    ensures At(m, p, a + b) <==> At(m, p, a) && At(m, p + |a|, b)
  {
    if At(m, p, a + b) {
      assert a == (a + b)[..|a|] == m[p..p + |a + b|][..|a|];
      assert b == (a + b)[|a|..] == m[p..p + |a + b|][|a|..];
    }
    if At(m, p, a) && At(m, p + |a|, b) {
      assert m[p..p + |a + b|] == m[p..p + |a|] + m[p + |a|..p + |a| + |b|];
    }
  }

  lemma WordAt(m: seq<byte>, p: nat, x: uint16)
    requires At(m, p, Word(x))
    ensures p + 2 <= |m| && Be16(m, p) == x
  {
    assert m[p] == m[p..p + 2][0] == High(x) && m[p + 1] == m[p..p + 2][1] == Low(x);
  }

  lemma {:induction false} NameAt(m: seq<byte>, p: nat, ls: seq<Label>, level: nat)
    requires Parsable(ls) && level < MAX_RECURSION && At(m, p, Encoded(ls))
    ensures Parse(m, p, level) == Some(Name(ls, false, p + |Encoded(ls)|))
  {
    hide Parse, Encoded;
    var n := |Encoded(ls)|;
    assert m == m[..p] + Encoded(ls) + m[p + n..];
    ParseEncoded(m[..p], ls, m[p + n..], level);
  }

  /** The name of a record is read, whichever way it is written. */
  lemma {:induction false} NameRead(m: seq<byte>, p: nat, r: Record)
    requires Writable(r) && At(m, p, NameBytes(r)) && Parse(m, HEADER_SIZE, 1).Some?
    ensures var n := Parse(m, p, 0); n.Some? && n.value.next == p + |NameBytes(r)|
  {
    hide Encoded;
    if r.name.None? {
      assert m[p] == m[p..p + 2][0] == COMPRESSION_TAG && m[p + 1] == m[p..p + 2][1] == HEADER_SIZE;
      assert Pointer(m, p) == HEADER_SIZE;
    } else {
      hide Parse;
      NameAt(m, p, r.name.value, 0);
    }
  }

  /** The fields behind the name of a record are read at their places. */
  lemma FieldsAt(m: seq<byte>, p: nat, r: Record)
    requires Writable(r) && At(m, p, Fields(r))
    ensures p + RECORD_SIZE + |r.data| == p + |Fields(r)| <= |m|
    ensures Be16(m, p) == r.kind && Be32(m, p + 4) == r.ttl && Be16(m, p + 8) == |r.data|
    ensures m[p + RECORD_SIZE..p + RECORD_SIZE + |r.data|] == r.data
  {
    hide At;
    var kind, rclass, high, low, size := Word(r.kind), Word(r.rclass), Word(r.ttl / 0x1_0000), Word(r.ttl % 0x1_0000), Word(|r.data|);
    AtBoth(m, p, kind + rclass + high + low + size, r.data);
    AtBoth(m, p, kind + rclass + high + low, size);
    AtBoth(m, p, kind + rclass + high, low);
    AtBoth(m, p, kind + rclass, high);
    AtBoth(m, p, kind, rclass);
    WordAt(m, p, r.kind);
    WordAt(m, p + 4, r.ttl / 0x1_0000);
    WordAt(m, p + 6, r.ttl % 0x1_0000);
    WordAt(m, p + 8, |r.data|);
    Inside(m, p, Fields(r));
    Inside(m, p + 10, r.data);
  }

  lemma Inside(m: seq<byte>, p: nat, s: seq<byte>)
    requires At(m, p, s)
    ensures p + |s| <= |m| && m[p..p + |s|] == s
  {
  }

  /** The client finds the first record that fits, among any records. */
  lemma {:induction false} FindsFirst(m: seq<byte>, p: nat, rs: seq<Record>, host: HostType)
    requires AllWritable(rs) && At(m, p, Records(rs)) && Parse(m, HEADER_SIZE, 1).Some?
    ensures var j := FirstFit(rs, host);
            FirstAnswer(m, p, |rs|, host) == if j < |rs| then Answer(rs[j].data, rs[j].ttl) else Ignore
    decreases |rs|
  {
    hide Parse, NameBytes, Fields, IsAddress, Fits, At, Be32;
    if rs != [] {
      var r := rs[0];
      AtBoth(m, p, RecordBytes(r), Records(rs[1..]));
      AtBoth(m, p, NameBytes(r), Fields(r));
      NameRead(m, p, r);
      FieldsAt(m, p + |NameBytes(r)|, r);
      FitsRead(m, p + |NameBytes(r)|, r, host);
      FindsFirst(m, p + |RecordBytes(r)|, rs[1..], host);
    }
  }

  lemma FitsRead(m: seq<byte>, p: nat, r: Record, host: HostType)
    requires p + RECORD_SIZE <= |m| && Be16(m, p) == r.kind && Be16(m, p + 8) == |r.data|
    ensures IsAddress(m, p, host) <==> Fits(r, host)
  {
  }

  // ----- a whole response -----

  /** A response of a server: the flags, the labels of its one question with their type, and the answers. */
  datatype Message = Message(id: uint16, flags: byte, code: byte, counts: seq<byte>, labels: seq<Label>, kind: uint16,
                             answers: seq<Record>, after: seq<byte>)
  {
    /** A response, not a query, to a question that the parser reads. */
    predicate Valid() {
      && flags >= 0x80 && |counts| == 4 && Parsable(labels) && |answers| < 0x1_0000 && AllWritable(answers)
      && |Bytes()| <= MESSAGE_MAX
    }

    function Header(): (h: seq<byte>)
      requires |answers| < 0x1_0000
      ensures |h| == 8 + |counts|
    {
      Word(id) + [flags, code] + Word(1) + Word(|answers|) + counts
    }

    function Question(): seq<byte>
      requires Parsable(labels)
    {
      Encoded(labels) + Word(kind) + Word(1)
    }

    function Bytes(): seq<byte>
      requires Parsable(labels) && |answers| < 0x1_0000 && AllWritable(answers)
    {
      Header() + Question() + Records(answers) + after
    }
  }

  /** Where the parts of a response are. */
  lemma Parts(m: Message)
    requires m.Valid()
    ensures var b := m.Bytes();
            && At(b, 0, m.Header()) && At(b, HEADER_SIZE, m.Question())
            && At(b, HEADER_SIZE + |m.Question()|, Records(m.answers))
  {
    hide Encoded, Records, AllWritable, At, Word;
    var b := m.Bytes();
    Whole(b);
    AtBoth(b, 0, m.Header() + m.Question() + Records(m.answers), m.after);
    AtBoth(b, 0, m.Header() + m.Question(), Records(m.answers));
    AtBoth(b, 0, m.Header(), m.Question());
  }

  lemma Whole(s: seq<byte>)
    ensures At(s, 0, s)
  {
  }

  /** The fixed fields of a response are where the client looks for them. */
  lemma HeaderRead(m: Message)
    requires m.Valid()
    ensures var b := m.Bytes(); WellFormed(b) && Be16(b, 0) == m.id && b[3] == m.code && Be16(b, 6) == |m.answers|
  {
    hide Encoded, Records, AllWritable, At, Word, Message.Bytes, Message.Question;
    Parts(m);
    var b, flags := m.Bytes(), [m.flags, m.code];
    AtBoth(b, 0, Word(m.id) + flags + Word(1) + Word(|m.answers|), m.counts);
    AtBoth(b, 0, Word(m.id) + flags + Word(1), Word(|m.answers|));
    AtBoth(b, 0, Word(m.id) + flags, Word(1));
    AtBoth(b, 0, Word(m.id), flags);
    WordSize(m.id);
    WordSize(1);
    WordAt(b, 0, m.id);
    WordAt(b, 4, 1);
    WordAt(b, 6, |m.answers|);
    Inside(b, 0, m.Header());
    Inside(b, 2, flags);
    assert b[2] == b[2..4][0] && b[3] == b[2..4][1];
  }

  /** The question is read: its labels, and its type and class behind them. */
  lemma QuestionRead(m: Message)
    requires m.Valid()
    ensures var b, p := m.Bytes(), HEADER_SIZE + |Encoded(m.labels)|;
            && Parse(b, HEADER_SIZE, 0) == Some(Name(m.labels, false, p))
            && Parse(b, HEADER_SIZE, 1).Some?
            && p + QUESTION_SIZE == HEADER_SIZE + |m.Question()| <= |b| && Be16(b, p) == m.kind && Be16(b, p + 2) == 1
  {
    hide Encoded, Records, Parse, AllWritable, At, Word, Message.Bytes, Message.Header;
    Parts(m);
    var b, p, name := m.Bytes(), HEADER_SIZE + |Encoded(m.labels)|, Encoded(m.labels);
    AtBoth(b, HEADER_SIZE, name + Word(m.kind), Word(1));
    AtBoth(b, HEADER_SIZE, name, Word(m.kind));
    NameAt(b, HEADER_SIZE, m.labels, 0);
    NameAt(b, HEADER_SIZE, m.labels, 1);
    WordSize(m.kind);
    WordSize(1);
    WordAt(b, p, m.kind);
    WordAt(b, p + 2, 1);
  }

  lemma WordSize(x: uint16)
    ensures |Word(x)| == 2
  {
  }

  /** The question is about the entry: its name but for case, and the type of address it looks for. */
  predicate Concerns(m: Message, e: Entry) {
    m.id == e.id && IsName(e.name, m.labels) && m.kind == if e.host == Host4 then 1 else 28
  }

  lemma Asked(m: Message, e: Entry)
    requires m.Valid() && Concerns(m, e) && e.host != AnyHost && 0 !in e.name
    ensures WellFormed(m.Bytes()) && Asks(m.Bytes(), e)
  {
    hide Encoded, Records, Parse, AllWritable, IsName, StartsWith, Compare, ReadLabels, At, WellFormed, Message.Bytes;
    var b := m.Bytes();
    HeaderRead(m);
    QuestionRead(m);
    CompareExactly(b, HEADER_SIZE, e.name);
    ParsedLabels(b, HEADER_SIZE, 0);
  }

  lemma Examined(m: Message, e: Entry)
    requires m.Valid() && Concerns(m, e) && e.host != AnyHost && 0 !in e.name
    ensures WellFormed(m.Bytes())
    ensures var j := FirstFit(m.answers, e.host);
            Examine(m.Bytes(), e)
            == if m.code % 16 != 0 then Refused
               else if j < |m.answers| then Answer(m.answers[j].data, m.answers[j].ttl) else Ignore
  {
    hide Encoded, Records, Parse, AllWritable, Asks, FirstAnswer, At, Fits, Concerns, WellFormed, FirstFit, Message.Bytes;
    Parts(m);
    var b := m.Bytes();
    HeaderRead(m);
    QuestionRead(m);
    Asked(m, e);
    FindsFirst(b, HEADER_SIZE + |m.Question()|, m.answers, e.host);
  }

  /**
   A response to the question of a lookup, with any answers, authority and additional records:
   the data of the first address of the kind that is looked for becomes the address of the
   entry, for as many seconds as its time to live says, up to an hour and at least one. An
   error code ends the lookup, and without such an address the lookup goes on.
   */
  lemma AnswerTaken(c: Cache, k: nat, m: Message, time: uint32)
    requires Safe(c) && k < |c.entries| && c.entries[k].state == InProgress
    requires m.Valid() && Concerns(m, c.entries[k]) && 0 !in c.entries[k].name
    ensures var e, d := c.entries[k], Step(c, DoResponse(c.entries[k].interface, c.entries[k].port, m.Bytes(), time));
            var j, ended := FirstFit(m.answers, e.host), c.callbacks - {Registration(e.interface, e.port)};
            if m.code % 16 != 0 then d == c.(entries := c.entries[k := e.(state := Unused)], callbacks := ended)
            else if j == |m.answers| then d == c
            else
              && d.callbacks == ended && d.queries == c.queries
              && |d.entries| == |c.entries| && (forall i :: 0 <= i < |c.entries| && i != k ==> d.entries[i] == c.entries[i])
              && d.entries[k] == e.(state := Resolved, addr := m.answers[j].data, timestamp := time,
                                    timeout := d.entries[k].timeout)
              && var ttl, kept := m.answers[j].ttl, d.entries[k].timeout;
                 && (ttl == 0 ==> kept == 1000) && (1 <= ttl <= 3600 ==> kept == 1000 * ttl)
                 && (3600 < ttl && 1000 * ttl < WRAP ==> kept == 3600000)
  {
    hide OwnPorts, Pending, Examine, Concerns, WellFormed, IsName, Fits, FindPort, Message.Bytes;
    var e := c.entries[k];
    OnlyPort(c, k);
    HeaderRead(m);
    Examined(m, e);
    assert GoodEntry(e);
  }

  lemma OnlyPort(c: Cache, k: nat)
    requires Safe(c) && k < |c.entries| && c.entries[k].state == InProgress
    ensures FindPort(c.entries, c.entries[k].port) == k
  {
    hide Pending, GoodEntry;
    var f := FindPort(c.entries, c.entries[k].port);
    assert f <= k;
  }

  /**
   From the question to the caller: whoever waits for the lookup gets the data of the first
   address that fits, from the next look at the cache until the entry expires.
   */
  lemma {:induction false} AnswerGiven(c: Cache, k: nat, m: Message, name: seq<byte>, host: HostType, port: uint16, id: uint16,
                    time: uint32, later: uint32, attachOk: bool, net: Network)
    requires Safe(c) && k < |c.entries| && c.entries[k].state == InProgress && net.Valid()
    requires m.Valid() && Concerns(m, c.entries[k]) && 0 !in c.entries[k].name && m.code % 16 == 0
    requires FirstFit(m.answers, c.entries[k].host) < |m.answers|
    requires Find(c.entries, c.entries[k].interface, name, host) == k
    ensures var e := c.entries[k];
            var d := Step(c, DoResponse(e.interface, e.port, m.Bytes(), time));
            && Resolve(c, e.interface, name, host, port, id, later, later, attachOk, net) == Resolution(c, Waiting)
            && Resolve(d, e.interface, name, host, port, id, later, later, attachOk, net)
               == Resolution(d, Found(m.answers[FirstFit(m.answers, e.host)].data))
            && TickOne(d, k, later, net) == (if Due(d.entries[k], later) then d.(entries := d.entries[k := d.entries[k].(state := Unused)]) else d)
  {
    hide Safe, Concerns, IsName, Fits, Message.Bytes, Create, Launched, FoldAll, Due, Step;
    var e := c.entries[k];
    SafeSize(c);
    AnswerTaken(c, k, m, time);
    var d := Step(c, DoResponse(e.interface, e.port, m.Bytes(), time));
    var f := Find(d.entries, e.interface, name, host);
    assert Matches(d.entries[k], e.interface, name, host);
    assert f == k;
  }

  lemma SafeSize(c: Cache)
    requires Safe(c)
    ensures c.entries != []
  {
  }

  // ----- queries -----

  /** Where a new lookup goes: an unused entry, or else the one that is the oldest. */
  predicate Replaced(es: seq<Entry>, k: nat, time: uint32) {
    && k < |es| && (es[k].state == Unused ==> forall j :: 0 <= j < k ==> es[j].state != Unused)
    && (es[k].state != Unused ==>
          && (forall j :: 0 <= j < |es| ==> es[j].state != Unused && Age(es[j].timestamp, time) <= Age(es[k].timestamp, time))
          && (forall j :: 0 <= j < k ==> Age(es[j].timestamp, time) < Age(es[k].timestamp, time)))
  }

  /**
   A name that is not in the cache is asked for, of the first server, and takes the first
   unused entry, or else the oldest one; a lookup that was in progress there is over.
   */
  lemma LookupStarts(c: Cache, k: nat, interface: nat, name: seq<byte>, host: HostType, port: uint16, id: uint16,
                     time: uint32, later: uint32, net: Network)
    requires Safe(c) && net.Valid() && net.sendOk && FreePort(c.entries, port) && Replaced(c.entries, k, time)
    requires (host == Host4 && net.servers4[0]) || (host == Host6 && net.servers6[0])
    requires forall j :: 0 <= j < |c.entries| ==> !Matches(c.entries[j], interface, name, host)
    ensures c.entries != []
    ensures var r := Resolve(c, interface, name, host, port, id, time, later, true, net);
            && r.outcome == Waiting
            && r.cache.queries == c.queries + [Query(Registration(interface, port), id, name, 0)]
            && r.cache.entries == c.entries[k := Entry(InProgress, host, interface, name, [], 0, port, id, later, 1000, 5000, 2)]
            && r.cache.callbacks == (if c.entries[k].state == InProgress then c.callbacks - {Callback(c.entries[k])} else c.callbacks)
                                    + {Registration(interface, port)}
  {
    hide OwnPorts, Pending, GoodEntry, Matches, Replaced, Create, FreePort;
    SafeSize(c);
    CreatesAt(c, k, time);
  }

  lemma CreatesAt(c: Cache, k: nat, time: uint32)
    requires c.entries != [] && Replaced(c.entries, k, time)
    ensures var r := Create(c, time);
            && r.index == k && r.cache.entries == c.entries[k := EMPTY] && r.cache.queries == c.queries
            && r.cache.callbacks == if c.entries[k].state == InProgress then c.callbacks - {Callback(c.entries[k])} else c.callbacks
  {
    hide Age;
    var f := FirstUnused(c.entries);
    if c.entries[k].state == Unused {
      assert f == k;
    } else {
      assert f == |c.entries|;
      assert Oldest(Stamps(c.entries), time, |c.entries|) == k;
    }
  }

  /** A server of each number can be reached. */
  predicate Reachable(net: Network, host: HostType) {
    && net.Valid() && net.sendOk
    && ((host == Host4 && net.servers4[0] && net.servers4[1]) || (host == Host6 && net.servers6[0] && net.servers6[1]))
  }

  /** The wait after a query is one second for the first to each server, and twice that before it for the others. */
  function Wait(n: nat): nat {
    if n % 3 == 0 then 1000 else if n % 3 == 1 then 2000 else 4000
  }

  /** The queries after the first one: two to the first server, then three to the second. */
  function Queries(e: Entry, n: nat): (qs: seq<Query>)
    requires n <= 5
    ensures |qs| == n && forall i :: 0 <= i < n ==> qs[i] == Query(Callback(e), e.id, e.name, (i + 1) / 3)
  {
    seq(n, i requires 0 <= i < n => Query(Callback(e), e.id, e.name, (i + 1) / 3))
  }

  /**
   What a lookup sends when nobody answers and both servers can be reached: a query at each of
   the first five timeouts, two more to the first server and three to the second, with the
   same identifier; the waits are 1, 2 and 4 seconds for each server. At the sixth timeout the
   lookup is given up, with its callback.
   */
  lemma {:induction false} RetriesExactly(c: Cache, k: nat, times: seq<uint32>, nets: seq<Network>)
    requires k < |c.entries| && c.entries[k].state == InProgress
    requires var e := c.entries[k]; e.serverNum == 0 && e.retransmitCount == 2 && e.timeout == 1000 && e.maxTimeout == 5000
    requires |times| == |nets| <= 6 && ValidNetworks(nets) && (forall i :: 0 <= i < |nets| ==> Reachable(nets[i], c.entries[k].host))
    requires EachDue(c, k, times, nets)
    ensures var d, e, n := TickOften(c, k, times, nets), c.entries[k], |times|;
            if n < 6 then
              && d.entries[k] == e.(serverNum := n / 3, retransmitCount := 2 - n % 3, timeout := Wait(n),
                                    timestamp := if n == 0 then e.timestamp else times[n - 1])
              && d.queries == c.queries + Queries(e, n)
              && d.callbacks == c.callbacks
            else
              && d.entries[k].state == Unused && d.callbacks == c.callbacks - {Callback(e)}
              && d.queries == c.queries + Queries(e, 5)
  {
    hide Due, TickOne, Reachable;
    var e, n := c.entries[k], |times|;
    if n > 0 {
      RetriesExactly(c, k, times[..n - 1], nets[..n - 1]);
      var b := TickOften(c, k, times[..n - 1], nets[..n - 1]);
      NextTry(b, k, n - 1, times[n - 1], nets[n - 1]);
      if n < 6 {
        assert c.queries + Queries(e, n) == c.queries + Queries(e, n - 1) + [Query(Callback(e), e.id, e.name, n / 3)];
      }
    }
  }

  lemma NextTry(c: Cache, k: nat, n: nat, time: uint32, net: Network)
    requires k < |c.entries| && c.entries[k].state == InProgress && n < 6 && Reachable(net, c.entries[k].host)
    requires var e := c.entries[k];
             e.serverNum == n / 3 && e.retransmitCount == 2 - n % 3 && e.timeout == Wait(n) && e.maxTimeout == 5000
    requires Due(c.entries[k], time)
    ensures var d, e := TickOne(c, k, time, net), c.entries[k];
            if n < 5 then
              && d.entries[k] == e.(serverNum := (n + 1) / 3, retransmitCount := 2 - (n + 1) % 3, timeout := Wait(n + 1), timestamp := time)
              && d.queries == c.queries + [Query(Callback(e), e.id, e.name, (n + 1) / 3)] && d.callbacks == c.callbacks
            else d.entries[k].state == Unused && d.callbacks == c.callbacks - {Callback(e)} && d.queries == c.queries
  {
    hide Due;
  }

  /** A lookup that cannot be sent fails, and leaves neither a callback nor a lookup in progress behind. */
  lemma LookupFails(c: Cache, k: nat, interface: nat, name: seq<byte>, host: HostType, port: uint16, id: uint16,
                    time: uint32, later: uint32, attachOk: bool, net: Network)
    requires Safe(c) && net.Valid() && FreePort(c.entries, port) && Replaced(c.entries, k, time)
    requires !attachOk || !net.sendOk || host == AnyHost
             || (host == Host4 && !net.servers4[0]) || (host == Host6 && !net.servers6[0])
    requires forall j :: 0 <= j < |c.entries| ==> !Matches(c.entries[j], interface, name, host)
    ensures c.entries != []
    ensures var r := Resolve(c, interface, name, host, port, id, time, later, attachOk, net);
            && r.outcome == Failed && r.cache.queries == c.queries
            && |r.cache.entries| == |c.entries| && r.cache.entries[k].state == Unused
            && (forall j :: 0 <= j < |c.entries| && j != k ==> r.cache.entries[j] == c.entries[j])
            && r.cache.callbacks == (if c.entries[k].state == InProgress then c.callbacks - {Callback(c.entries[k])} else c.callbacks)
  {
    hide OwnPorts, Pending, GoodEntry, Matches, Replaced, Create, FreePort;
    SafeSize(c);
    NoCallback(c, interface, port);
    CreatesAt(c, k, time);
  }

  /** The entry is about this name on this interface, for a lookup of this type or of any. */
  predicate IsAbout(e: Entry, interface: nat, name: seq<byte>, host: HostType) {
    e.state != Unused && e.interface == interface && FoldAll(e.name) == FoldAll(name) && (host == AnyHost || e.host == host)
  }

  /** A name that is in the cache is not asked for again: the caller gets the address, or waits for the lookup in progress. */
  lemma KnownNames(c: Cache, interface: nat, name: seq<byte>, host: HostType, port: uint16, id: uint16, time: uint32,
                   later: uint32, attachOk: bool, net: Network)
    requires Safe(c) && net.Valid() && FreePort(c.entries, port)
    ensures c.entries != []
    ensures var r := Resolve(c, interface, name, host, port, id, time, later, attachOk, net);
            (exists k :: 0 <= k < |c.entries| && IsAbout(c.entries[k], interface, name, host)) ==>
              && r.cache == c
              && exists k :: 0 <= k < |c.entries| && IsAbout(c.entries[k], interface, name, host)
                   && r.outcome == if c.entries[k].state == InProgress then Waiting else Found(c.entries[k].addr)
    ensures var r := Resolve(c, interface, name, host, port, id, time, later, attachOk, net);
            r.outcome.Found? ==> exists k :: 0 <= k < |c.entries| && IsAbout(c.entries[k], interface, name, host)
                                   && r.outcome.addr == c.entries[k].addr && r.cache == c
  {
    hide OwnPorts, Pending, GoodEntry, FoldAll, Create;
    var k := Find(c.entries, interface, name, host);
    if k < |c.entries| {
      assert IsAbout(c.entries[k], interface, name, host);
    }
  }

  // ----- ticks and flushes -----

  /** A tick treats each entry by itself. */
  lemma {:induction false} TickEach(c: Cache, n: nat, time: uint32, nets: seq<Network>)
    requires n <= |c.entries| <= |nets| && ValidNetworks(nets)
    ensures var d := TickFirst(c, n, time, nets);
            forall k :: 0 <= k < |c.entries| ==>
              d.entries[k] == if k < n then TickOne(c, k, time, nets[k]).entries[k] else c.entries[k]
  {
    hide TickOne;
    if n > 0 {
      TickEach(c, n - 1, time, nets);
      TickAlone(c, TickFirst(c, n - 1, time, nets), n - 1, time, nets[n - 1]);
    }
  }

  lemma TickAlone(c: Cache, b: Cache, k: nat, time: uint32, net: Network)
    requires k < |c.entries| == |b.entries| && b.entries[k] == c.entries[k] && net.Valid()
    ensures TickOne(b, k, time, net).entries == b.entries[k := TickOne(c, k, time, net).entries[k]]
  {
    hide Due, Wrap, CanSend;
  }

  /** An entry whose time is not over, or that has no time, is left alone by a tick. */
  lemma LeftAlone(c: Cache, k: nat, time: uint32, net: Network)
    requires k < |c.entries| && net.Valid() && (!Due(c.entries[k], time) || c.entries[k].state in {Unused, Permanent})
    ensures TickOne(c, k, time, net) == c
  {
    hide Due;
  }

  /** A flush takes the entries of one interface out of the cache, and no other entry. */
  lemma {:induction false} FlushesInterface(c: Cache, n: nat, interface: nat)
    requires n <= |c.entries|
    ensures var d := FlushFirst(c, n, interface);
            forall k :: 0 <= k < |c.entries| ==>
              if k < n && c.entries[k].interface == interface then d.entries[k].state == Unused else d.entries[k] == c.entries[k]
  {
    if n > 0 {
      FlushesInterface(c, n - 1, interface);
    }
  }
}
