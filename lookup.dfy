/**
 * The query side of main: classifying one line of input, answering a port
 * query, and answering a service-name query, over indices that are only read.
 */
module Lookup {
  import opened Wrappers
  import opened Text
  import opened Ingest

  /** The largest port number a query accepts. */
  const MaxQueryPort := 64738

  /** What one line of input asks for. */
  datatype Command = Quit | Blank | PortCommand(port: nat) | NameCommand(name: string)

  /** The words that end the session, compared after lower-casing. */
  predicate IsQuitWord(s: string) {
    s == "q" || s == "quit" || s == "exit"
  }

  lemma DigitsAreNotQuitWords(t: string)
    ensures IsDigits(t) ==> !IsQuitWord(Lower(t))
  {
    if IsDigits(t) {
      assert IsDigit(t[0]);
      assert Lower(t)[0] == t[0];
    }
  }

  /** The input is stripped, then tested for a quit word, for emptiness and for
      being all digits, in that order; anything else is a service name. */
  function Classify(line: string): (c: Command)
    ensures var t := Trim(line);
      && (c.Quit? <==> IsQuitWord(Lower(t)))
      && (c.Blank? <==> t == "")
      && (c.PortCommand? <==> IsDigits(t))
      && (c.PortCommand? ==> ParseInt(t) == Some(c.port as int))
      && (c.NameCommand? ==> c.name == t && !IsDigits(t) && t != "")
  {
    var t := Trim(line);
    DigitsAreNotQuitWords(t);
    if IsQuitWord(Lower(t)) then Quit
    else if t == "" then Blank
    else if IsDigits(t) then PortCommand(DigitsValue(t))
    else NameCommand(t)
  }

  /** Surrounding whitespace never changes what a line asks for. */
  lemma ClassifyIgnoresPadding(w1: string, t: string, w2: string)
    requires AllSpace(w1) && AllSpace(w2) && Trimmed(t)
    ensures Classify(w1 + t + w2) == Classify(t)
  {
    TrimPadded(w1, t, w2);
    TrimTrimmed(t);
  }

  /** The numeral of any port number, however padded, is a query for that port. */
  lemma PortLineIsPortCommand(n: nat, w1: string, w2: string)
    requires AllSpace(w1) && AllSpace(w2)
    ensures Classify(w1 + Decimal(n) + w2) == PortCommand(n)
  {
    ParseIntRoundTrip(n);
    ClassifyIgnoresPadding(w1, Decimal(n), w2);
    DigitsAreNotQuitWords(Decimal(n));
    DecimalRoundTrip(n);
  }

  /** What a port query reports for one protocol. */
  datatype ProtoAnswer = Mapped(name: string, desc: string) | NotMapped

  datatype PortAnswer =
    | OutOfRange
    | NoKnownServices
    | PortServices(tcp: ProtoAnswer, udp: ProtoAnswer)

  function AnswerFor(a: PortAnswer, p: Proto): ProtoAnswer
    requires a.PortServices?
  {
    match p
    case TCP => a.tcp
    case UDP => a.udp
  }

  function SlotAnswer(slot: Option<PortRec>): ProtoAnswer {
    match slot
    case None => NotMapped
    case Some(rec) => Mapped(rec.name, rec.desc)
  }

  /** The port query: the range check comes first; a port with no entry at all is
      reported apart from a known port, and then each protocol on its own. */
  function QueryPort(ports: PortIndex, port: int): (a: PortAnswer)
    ensures a.OutOfRange? <==> !(0 <= port <= MaxQueryPort)
    ensures a.NoKnownServices? <==> 0 <= port <= MaxQueryPort && port !in ports
    ensures a.PortServices? ==> forall p :: AnswerFor(a, p) == SlotAnswer(PortSlot(ports, port, p))
  {
    if !(0 <= port <= MaxQueryPort) then OutOfRange
    else if port !in ports then NoKnownServices
    else PortServices(SlotAnswer(PortSlot(ports, port, TCP)), SlotAnswer(PortSlot(ports, port, UDP)))
  }

  /** A port above the accepted range is refused whatever the index holds. */
  lemma OutOfRangeIgnoresIndex(ports1: PortIndex, ports2: PortIndex, port: int)
    requires port > MaxQueryPort
    ensures QueryPort(ports1, port) == QueryPort(ports2, port) == OutOfRange
  {
  }

  /** The position in keys of the first key equal to q once both are lower-cased. */
  function FirstCaseMatch(keys: seq<string>, q: string): (r: Option<nat>)
    ensures r.None? <==> forall i :: 0 <= i < |keys| ==> Lower(keys[i]) != Lower(q)
    ensures r.Some? ==> && r.value < |keys| && Lower(keys[r.value]) == Lower(q)
                        && forall j :: 0 <= j < r.value ==> Lower(keys[j]) != Lower(q)
  {
    if keys == [] then None
    else if Lower(keys[0]) == Lower(q) then Some(0)
    else match FirstCaseMatch(keys[1..], q)
      case None => None
      case Some(i) => Some(i + 1)
  }

  /** The key a name query settles on: the query itself when it is a key, otherwise
      the first key in insertion order that matches it ignoring case. */
  function Resolve(ix: Indices, q: string): (r: Option<string>)
    requires OrderValid(ix)
    ensures q in ix.services ==> r == Some(q)
    ensures r.Some? ==> r.value in ix.services && Lower(r.value) == Lower(q)
    ensures r.None? <==> forall k :: k in ix.services ==> Lower(k) != Lower(q)
    ensures q !in ix.services && r.Some? ==>
      exists i :: && 0 <= i < |ix.order| && ix.order[i] == r.value
                  && forall j :: 0 <= j < i ==> Lower(ix.order[j]) != Lower(q)
  {
    OrderCoversKeys(ix, q);
    if q in ix.services then Some(q)
    else match FirstCaseMatch(ix.order, q)
      case None => None
      case Some(i) => Some(ix.order[i])
  }

  /** Scanning order sees every key of the service index. */
  lemma OrderCoversKeys(ix: Indices, q: string)
    requires OrderValid(ix)
    ensures (forall i :: 0 <= i < |ix.order| ==> Lower(ix.order[i]) != Lower(q)) ==>
              forall k :: k in ix.services ==> Lower(k) != Lower(q)
  {
    if forall i :: 0 <= i < |ix.order| ==> Lower(ix.order[i]) != Lower(q) {
      forall k | k in ix.services
        ensures Lower(k) != Lower(q)
      {
        var i :| 0 <= i < |ix.order| && ix.order[i] == k;
      }
    }
  }

  /** What a name query reports: the matched key in its stored casing, the
      description, and the port for each protocol the service has. */
  datatype ServiceAnswer =
    | NotFound
    | ServiceInfo(name: string, desc: string, tcp: Option<int>, udp: Option<int>)

  function PortOf(rec: ServiceRec, p: Proto): Option<int> {
    if p in rec.ports then Some(rec.ports[p]) else None
  }

  function ServiceQuery(ix: Indices, q: string): ServiceAnswer
    requires OrderValid(ix)
  {
    match Resolve(ix, q)
    case None => NotFound
    case Some(k) => ServiceInfo(k, ix.services[k].desc, PortOf(ix.services[k], TCP), PortOf(ix.services[k], UDP))
  }

  /** The name query as the loop runs it: the exact key first, then a scan of the
      keys in insertion order that stops at the first case-insensitive match. */
  method QueryService(ix: Indices, q: string) returns (a: ServiceAnswer)
    requires OrderValid(ix)
    ensures a == ServiceQuery(ix, q)
    ensures a.NotFound? <==> forall k :: k in ix.services ==> Lower(k) != Lower(q)
    ensures a.ServiceInfo? ==> && a.name in ix.services && Lower(a.name) == Lower(q)
                               && (q in ix.services ==> a.name == q)
                               && a.desc == ix.services[a.name].desc
                               && a.tcp == PortOf(ix.services[a.name], TCP)
                               && a.udp == PortOf(ix.services[a.name], UDP)
  {
    var name := q;
    var found := false;
    if q in ix.services {
      found := true;
    } else {
      for i := 0 to |ix.order|
        invariant forall j :: 0 <= j < i ==> Lower(ix.order[j]) != Lower(q)
        invariant !found
      {
        if Lower(ix.order[i]) == Lower(q) {
          name := ix.order[i];
          found := true;
          assert FirstCaseMatch(ix.order, q) == Some(i);
          break;
        }
      }
    }
    if found {
      var rec := ix.services[name];
      a := ServiceInfo(name, rec.desc, PortOf(rec, TCP), PortOf(rec, UDP));
    } else {
      a := NotFound;
    }
  }

  /** The outcome of one line of input. */
  datatype Response = Exit | Skip | PortReply(port: PortAnswer) | ServiceReply(service: ServiceAnswer)

  /** One turn of the interactive loop, without its printing. */
  function Respond(ix: Indices, line: string): (r: Response)
    requires OrderValid(ix)
    ensures r.Exit? <==> Classify(line).Quit?
    ensures r.Skip? <==> Classify(line).Blank?
    ensures r.PortReply? <==> Classify(line).PortCommand?
    ensures r.PortReply? ==> r.port == QueryPort(ix.ports, Classify(line).port)
    ensures r.ServiceReply? ==> r.service == ServiceQuery(ix, Trim(line))
  {
    match Classify(line)
    case Quit => Exit
    case Blank => Skip
    case PortCommand(n) => PortReply(QueryPort(ix.ports, n))
    case NameCommand(name) => ServiceReply(ServiceQuery(ix, name))
  }

  /** A numeral above the accepted range is refused, whatever the index holds. */
  lemma PortAboveRangeRefused(ix1: Indices, ix2: Indices, n: nat, w1: string, w2: string)
    requires OrderValid(ix1) && OrderValid(ix2)
    requires AllSpace(w1) && AllSpace(w2) && n > MaxQueryPort
    ensures Respond(ix1, w1 + Decimal(n) + w2) == Respond(ix2, w1 + Decimal(n) + w2) == PortReply(OutOfRange)
  {
    PortLineIsPortCommand(n, w1, w2);
  }

  // ---------------------------------------------------------------------------
  // Queries over indices that load_services built.

  lemma {:induction false} OksHasEntry(rs: seq<Result<Entry, RowError>>, k: int)
    requires 0 <= k < |rs| && rs[k].Ok?
    ensures exists i :: 0 <= i < |Oks(rs)| && Oks(rs)[i] == rs[k].value
  {
    var pre := rs[..|rs| - 1];
    if k == |rs| - 1 {
      assert Oks(rs)[|Oks(pre)|] == rs[k].value;
    } else {
      assert pre[k] == rs[k];
      OksHasEntry(pre, k);
      var i :| 0 <= i < |Oks(pre)| && Oks(pre)[i] == rs[k].value;
      assert Oks(rs)[i] == Oks(pre)[i];
    }
  }

  /** Every accepted entry whose port is in range makes a port query report a service
      for its protocol, and a named entry makes it report a name (not necessarily this
      entry's: the first named entry for the slot is kept). */
  lemma EntryAnswered(es: seq<Entry>, j: int)
    requires 0 <= j < |es| && 0 <= es[j].port <= MaxQueryPort
    ensures var a := QueryPort(ApplyAll(Empty, es).ports, es[j].port);
      && a.PortServices? && AnswerFor(a, es[j].proto).Mapped?
      && (es[j].name != "" ==> AnswerFor(a, es[j].proto).name != "")
  {
    var e := es[j];
    PortSlotIsKept(es, e.port, e.proto);
    var slot := PortSlot(ApplyAll(Empty, es).ports, e.port, e.proto);
    assert Hits(es[j], e.port, e.proto);
    var i :| Kept(es, i, e.port, e.proto) && slot.value == PortRec(es[i].name, es[i].desc);
    if e.name != "" && es[i].name == "" {
      assert false;
    }
  }

  /** The same for every row after the header that passes the checks. */
  lemma AcceptedRowAnswered(table: seq<Row>, k: int)
    requires 1 <= k < |table| && ParseRow(table[k]).Ok?
    requires 0 <= ParseRow(table[k]).value.port <= MaxQueryPort
    ensures var e := ParseRow(table[k]).value;
      var a := QueryPort(Build(table).ports, e.port);
      && a.PortServices? && AnswerFor(a, e.proto).Mapped?
      && (e.name != "" ==> AnswerFor(a, e.proto).name != "")
  {
    var rs := Outcomes(table[1..]);
    assert rs[k - 1] == ParseRow(table[k]);
    OksHasEntry(rs, k - 1);
    var j :| 0 <= j < |Oks(rs)| && Oks(rs)[j] == rs[k - 1].value;
    EntryAnswered(Oks(rs), j);
  }

  /** A service that a name query finds reports, for each protocol it has, a port
      whose record for that protocol carries a name. */
  lemma NameAnswerPortsAreKnown(table: seq<Row>, q: string, p: Proto)
    ensures OrderValid(Build(table))
    ensures var a := ServiceQuery(Build(table), q);
      a.ServiceInfo? ==> match PortOf(Build(table).services[a.name], p)
        case None => true
        case Some(port) => NamedSlot(Build(table).ports, port, p)
  {
    BuildValid(table);
  }

  /** Two entries reach the indices one after the other. */
  lemma ApplyTwo(e1: Entry, e2: Entry)
    ensures ApplyAll(Empty, [e1, e2]) == Insert(Insert(Empty, e1), e2)
  {
    assert [e1, e2][..1] == [e1];
    assert [e1][..0] == [];
    assert ApplyAll(Empty, [e1]) == Insert(Empty, e1);
  }

  /** When two rows share a (port, protocol) slot and the first has a name, the port
      query reports the first row, whatever the second holds. */
  lemma FirstNamedRowWins(table: seq<Row>, e1: Entry, e2: Entry)
    requires table != [] && Accepted(table[1..]) == [e1, e2]
    requires e1.name != "" && Hits(e2, e1.port, e1.proto) && 0 <= e1.port <= MaxQueryPort
    ensures var a := QueryPort(Build(table).ports, e1.port);
      a.PortServices? && AnswerFor(a, e1.proto) == Mapped(e1.name, e1.desc)
  {
    ApplyTwo(e1, e2);
    PortCollisionRule(Empty.ports, e1, e1.port, e1.proto);
    PortCollisionRule(Insert(Empty, e1).ports, e2, e1.port, e1.proto);
  }

  /** When the first row for a slot has no name, the next named row replaces it,
      description included. */
  lemma NamedRowFillsEmptySlot(table: seq<Row>, e1: Entry, e2: Entry)
    requires table != [] && Accepted(table[1..]) == [e1, e2]
    requires e1.name == "" && e2.name != "" && Hits(e2, e1.port, e1.proto) && 0 <= e1.port <= MaxQueryPort
    ensures var a := QueryPort(Build(table).ports, e1.port);
      a.PortServices? && AnswerFor(a, e1.proto) == Mapped(e2.name, e2.desc)
  {
    ApplyTwo(e1, e2);
    PortCollisionRule(Empty.ports, e1, e1.port, e1.proto);
    PortCollisionRule(Insert(Empty, e1).ports, e2, e1.port, e1.proto);
  }

  /** The name a port query reports need not be the service that a name query sends
      to that port: two services on one slot both point at it, the slot keeps the first. */
  lemma PortNameMayDifferFromService(table: seq<Row>, e1: Entry, e2: Entry)
    requires table != [] && Accepted(table[1..]) == [e1, e2]
    requires e1.name != "" && e2.name != "" && e1.name != e2.name && Hits(e2, e1.port, e1.proto)
    ensures var ix := Build(table);
      && e2.name in ix.services && PortOf(ix.services[e2.name], e2.proto) == Some(e1.port)
      && PortSlot(ix.ports, e1.port, e1.proto).value.name == e1.name != e2.name
  {
    ApplyTwo(e1, e2);
    PortCollisionRule(Empty.ports, e1, e1.port, e1.proto);
    PortCollisionRule(Insert(Empty, e1).ports, e2, e1.port, e1.proto);
  }

  /** A named slot need not be where its service's port points: a later row for the
      same service and protocol moves the service to another port. */
  lemma ServiceMayMoveOffNamedSlot(table: seq<Row>, e1: Entry, e2: Entry)
    requires table != [] && Accepted(table[1..]) == [e1, e2]
    requires e1.name != "" && e2.name == e1.name && e2.proto == e1.proto && e2.port != e1.port
    ensures var ix := Build(table);
      && PortSlot(ix.ports, e1.port, e1.proto) == Some(PortRec(e1.name, e1.desc))
      && PortOf(ix.services[e1.name], e1.proto) == Some(e2.port)
  {
    ApplyTwo(e1, e2);
    PortCollisionRule(Empty.ports, e1, e1.port, e1.proto);
    PortCollisionRule(Insert(Empty, e1).ports, e2, e1.port, e1.proto);
  }

  // ---------------------------------------------------------------------------
  // The registry's two rows for http, one per protocol, as the checks accept them.

  const HttpTcp := Entry("http", 80, TCP, "HyperText Transfer")
  const HttpUdp := Entry("http", 80, UDP, "")

  /** The indices the two http entries build, written out. */
  const HttpIndices := Indices(
    map[80 := map[TCP := PortRec("http", "HyperText Transfer"), UDP := PortRec("http", "")]],
    map["http" := ServiceRec("HyperText Transfer", map[TCP := 80, UDP := 80])],
    ["http"])

  /** The two http entries build one port key with both records, and one service with
      the tcp row's description and both ports. */
  lemma HttpBuild(table: seq<Row>)
    requires table != [] && Accepted(table[1..]) == [HttpTcp, HttpUdp]
    ensures Build(table) == HttpIndices
  {
    ApplyTwo(HttpTcp, HttpUdp);
    assert Insert(Empty, HttpTcp) == Indices(
      map[80 := map[TCP := PortRec("http", "HyperText Transfer")]],
      map["http" := ServiceRec("HyperText Transfer", map[TCP := 80])],
      ["http"]);
  }

  lemma HttpIndicesOrdered()
    ensures OrderValid(HttpIndices)
  {
  }

  /** Port 80 reports http for both protocols. */
  lemma HttpPortAnswer(table: seq<Row>)
    requires table != [] && Accepted(table[1..]) == [HttpTcp, HttpUdp]
    ensures QueryPort(Build(table).ports, 80) == PortServices(Mapped("http", "HyperText Transfer"), Mapped("http", ""))
  {
    HttpBuild(table);
  }

  /** A query for http finds service http, with the first description and both ports. */
  lemma HttpExactName(table: seq<Row>)
    requires table != [] && Accepted(table[1..]) == [HttpTcp, HttpUdp]
    ensures OrderValid(Build(table))
    ensures ServiceQuery(Build(table), "http") == ServiceInfo("http", "HyperText Transfer", Some(80), Some(80))
  {
    HttpBuild(table);
    HttpIndicesOrdered();
  }

  lemma LowerHttp()
    ensures Lower("HTTP") == "http" && Lower("http") == "http"
  {
    assert Lower("HTTP")[0] == 'h' && Lower("HTTP")[1] == 't' && Lower("HTTP")[2] == 't' && Lower("HTTP")[3] == 'p';
    assert Lower("http")[0] == 'h' && Lower("http")[1] == 't' && Lower("http")[2] == 't' && Lower("http")[3] == 'p';
  }

  /** A query for HTTP, which is not a key, falls back to the key http. */
  lemma HttpOtherCase(table: seq<Row>)
    requires table != [] && Accepted(table[1..]) == [HttpTcp, HttpUdp]
    ensures OrderValid(Build(table))
    ensures ServiceQuery(Build(table), "HTTP") == ServiceInfo("http", "HyperText Transfer", Some(80), Some(80))
  {
    HttpBuild(table);
    HttpIndicesOrdered();
    LowerHttp();
    assert Resolve(HttpIndices, "HTTP") == Some("http");
  }
}
