/**
 * load_services: turning the registry's rows into the port index and the
 * service index. The rows arrive already split into fields; the first row is
 * consumed as the header and never indexed.
 */
module Ingest {
  import opened Wrappers
  import opened Text

  datatype Proto = TCP | UDP

  /** The lower-cased protocol token that selects p. */
  function ProtoName(p: Proto): string {
    match p
    case TCP => "tcp"
    case UDP => "udp"
  }

  /** One (port, protocol) slot of the port index. */
  datatype PortRec = PortRec(name: string, desc: string)

  /** One service of the service index: its description and its port per protocol. */
  datatype ServiceRec = ServiceRec(desc: string, ports: map<Proto, int>)

  type PortIndex = map<int, map<Proto, PortRec>>

  type ServiceIndex = map<string, ServiceRec>

  /** Both indices. order lists the service index's keys in the order they were
      inserted, which is the order a dict iterates its keys in. */
  datatype Indices = Indices(ports: PortIndex, services: ServiceIndex, order: seq<string>)

  const Empty := Indices(map[], map[], [])

  type Row = seq<string>

  /** A row that passed every check: trimmed name, parsed port, protocol, trimmed description. */
  datatype Entry = Entry(name: string, port: int, proto: Proto, desc: string)

  /** Why a row is skipped, one case per `continue` of the loop. */
  datatype RowError = TooFewFields | BlankPortOrProtocol | UnknownProtocol | BadPortNumber

  /** The checks on the stripped fields of a row (the protocol also lower-cased), in
      the order the loop body applies them. */
  function CheckFields(name: string, portText: string, proto: string, desc: string): (r: Result<Entry, RowError>)
    ensures r.Ok? <==> ParseInt(portText).Some? && proto in {"tcp", "udp"}
    ensures r.Ok? ==> r.value == Entry(name, ParseInt(portText).value, r.value.proto, desc)
                      && ProtoName(r.value.proto) == proto
  {
    if portText == "" || proto == "" then Err(BlankPortOrProtocol)
    else if proto != "tcp" && proto != "udp" then Err(UnknownProtocol)
    else match ParseInt(portText)
      case None => Err(BadPortNumber)
      case Some(port) => Ok(Entry(name, port, if proto == "tcp" then TCP else UDP, desc))
  }

  /** The checks the loop body applies to one row, in the order it applies them. */
  function ParseRow(row: Row): (r: Result<Entry, RowError>)
    ensures r.Ok? <==> |row| >= 4 && ParseInt(Trim(row[1])).Some? && Lower(Trim(row[2])) in {"tcp", "udp"}
    ensures r.Ok? ==> && r.value.name == Trim(row[0])
                      && ParseInt(Trim(row[1])) == Some(r.value.port)
                      && ProtoName(r.value.proto) == Lower(Trim(row[2]))
                      && r.value.desc == Trim(row[3])
  {
    if |row| < 4 then Err(TooFewFields)
    else CheckFields(Trim(row[0]), Trim(row[1]), Lower(Trim(row[2])), Trim(row[3]))
  }

  /** A row that writes e back out, as the registry would list it. */
  function FormatRow(e: Entry): Row {
    [e.name, IntDecimal(e.port), ProtoName(e.proto), e.desc]
  }

  lemma LowerOfProtoName(p: Proto)
    ensures Trimmed(ProtoName(p)) && Lower(ProtoName(p)) == ProtoName(p)
  {
    var s := ProtoName(p);
    assert Lower(s)[0] == s[0] && Lower(s)[1] == s[1] && Lower(s)[2] == s[2];
  }

  lemma ProtoNameInjective(p: Proto, q: Proto)
    requires ProtoName(p) == ProtoName(q)
    ensures p == q
  {
  }

  lemma ParseRowAccepts(row: Row, e: Entry)
    requires |row| >= 4
    requires Trim(row[0]) == e.name && Trim(row[3]) == e.desc
    requires ParseInt(Trim(row[1])) == Some(e.port)
    requires Lower(Trim(row[2])) == ProtoName(e.proto)
    ensures ParseRow(row) == Ok(e)
  {
    assert Lower(Trim(row[2])) in {"tcp", "udp"} by {
      match e.proto
      case TCP =>
      case UDP =>
    }
    ProtoNameInjective(ParseRow(row).value.proto, e.proto);
  }

  lemma FormatRowPort(e: Entry)
    ensures ParseInt(Trim(FormatRow(e)[1])) == Some(e.port)
  {
    ParseIntRoundTrip(e.port);
    TrimTrimmed(IntDecimal(e.port));
  }

  lemma FormatRowProto(e: Entry)
    ensures Lower(Trim(FormatRow(e)[2])) == ProtoName(e.proto)
  {
    LowerOfProtoName(e.proto);
    TrimTrimmed(ProtoName(e.proto));
  }

  /** Every entry with trimmed text fields is accepted back from its own row. */
  lemma ParseRowRoundTrip(e: Entry)
    requires Trimmed(e.name) && Trimmed(e.desc)
    ensures ParseRow(FormatRow(e)) == Ok(e)
  {
    var row := FormatRow(e);
    FormatRowPort(e);
    FormatRowProto(e);
    assert Trim(row[0]) == e.name by { TrimTrimmed(e.name); }
    assert Trim(row[3]) == e.desc by { TrimTrimmed(e.desc); }
    ParseRowAccepts(row, e);
  }

  /** Fields after the fourth play no part. */
  lemma ExtraFieldsIgnored(row: Row)
    requires |row| >= 4
    ensures ParseRow(row) == ParseRow(row[..4])
  {
  }

  /** The outcome of the checks on each row, in row order. */
  function Outcomes(rows: seq<Row>): (r: seq<Result<Entry, RowError>>)
    ensures |r| == |rows|
  {
    seq(|rows|, i requires 0 <= i < |rows| => ParseRow(rows[i]))
  }

  /** The entries among some outcomes, in order. */
  function Oks(rs: seq<Result<Entry, RowError>>): seq<Entry> {
    if rs == [] then []
    else Oks(rs[..|rs| - 1]) + (match rs[|rs| - 1] case Ok(e) => [e] case Err(_) => [])
  }

  /** The entries of the rows that pass the checks, in row order. */
  function Accepted(rows: seq<Row>): seq<Entry> {
    Oks(Outcomes(rows))
  }

  lemma {:induction false} OksAppend(a: seq<Result<Entry, RowError>>, b: seq<Result<Entry, RowError>>)
    ensures Oks(a + b) == Oks(a) + Oks(b)
  {
    if b == [] {
      assert a + b == a;
    } else {
      assert (a + b)[..|a + b| - 1] == a + b[..|b| - 1];
      OksAppend(a, b[..|b| - 1]);
    }
  }

  lemma AcceptedAppend(a: seq<Row>, b: seq<Row>)
    ensures Accepted(a + b) == Accepted(a) + Accepted(b)
  {
    assert Outcomes(a + b) == Outcomes(a) + Outcomes(b);
    OksAppend(Outcomes(a), Outcomes(b));
  }

  lemma AcceptedSnoc(rows: seq<Row>, row: Row)
    ensures ParseRow(row).Err? ==> Accepted(rows + [row]) == Accepted(rows)
    ensures ParseRow(row).Ok? ==> Accepted(rows + [row]) == Accepted(rows) + [ParseRow(row).value]
  {
    var rs := Outcomes(rows + [row]);
    assert rs[..|rows|] == Outcomes(rows);
    assert rs[|rows|] == ParseRow(row);
    assert Oks(rs) == Oks(Outcomes(rows)) + (match ParseRow(row) case Ok(e) => [e] case Err(_) => []);
    assert Oks(Outcomes(rows)) + [] == Oks(Outcomes(rows));
  }

  /** What the port index holds for (port, p), if anything. */
  function PortSlot(ports: PortIndex, port: int, p: Proto): Option<PortRec> {
    if port in ports && p in ports[port] then Some(ports[port][p]) else None
  }

  predicate Hits(e: Entry, port: int, p: Proto) {
    e.port == port && e.proto == p
  }

  /** The port-index update: the slot is written when it is empty, or when the row
      has a name and the stored record has none. */
  function RecordPort(ports: PortIndex, e: Entry): PortIndex {
    var slots := if e.port in ports then ports[e.port] else map[];
    if e.proto !in slots || (e.name != "" && slots[e.proto].name == "") then
      ports[e.port := slots[e.proto := PortRec(e.name, e.desc)]]
    else
      ports
  }

  /** The service-index update for a named row: create the record with this row's
      description, set this protocol's port, fill the description while it is empty. */
  function RecordService(services: ServiceIndex, e: Entry): ServiceIndex {
    if e.name == "" then services
    else
      var prior := if e.name in services then services[e.name] else ServiceRec(e.desc, map[]);
      var withPort := prior.(ports := prior.ports[e.proto := e.port]);
      services[e.name := if e.desc != "" && withPort.desc == "" then withPort.(desc := e.desc) else withPort]
  }

  /** Both updates of one accepted row. */
  function Insert(ix: Indices, e: Entry): Indices {
    Indices(RecordPort(ix.ports, e),
            RecordService(ix.services, e),
            if e.name != "" && e.name !in ix.services then ix.order + [e.name] else ix.order)
  }

  /** The indices after the entries es, in order, starting from ix. */
  function ApplyAll(ix: Indices, es: seq<Entry>): Indices {
    if es == [] then ix else Insert(ApplyAll(ix, es[..|es| - 1]), es[|es| - 1])
  }

  /** load_services on the rows of the registry: the first row is always dropped. */
  function Build(table: seq<Row>): Indices {
    if table == [] then Empty else ApplyAll(Empty, Accepted(table[1..]))
  }

  // ---------------------------------------------------------------------------
  // The shape both indices keep.

  /** order lists each key of the service index exactly once. */
  ghost predicate OrderValid(ix: Indices) {
    && (forall i :: 0 <= i < |ix.order| ==> ix.order[i] in ix.services)
    && (forall n :: n in ix.services ==> n in ix.order)
    && (forall i, j :: 0 <= i < j < |ix.order| ==> ix.order[i] != ix.order[j])
  }

  /** Slot (port, p) holds a record with a non-empty name. */
  predicate NamedSlot(ports: PortIndex, port: int, p: Proto) {
    PortSlot(ports, port, p).Some? && PortSlot(ports, port, p).value.name != ""
  }

  ghost predicate Valid(ix: Indices) {
    && OrderValid(ix)
    && (forall port :: port in ix.ports ==> ix.ports[port] != map[])
    && (forall n :: n in ix.services ==> n != "" && ix.services[n].ports != map[])
    && (forall n :: n in ix.services ==>
          forall p :: p in ix.services[n].ports ==> NamedSlot(ix.ports, ix.services[n].ports[p], p))
  }

  /** The collision rule for one row, slot by slot. */
  lemma PortCollisionRule(ports: PortIndex, e: Entry, port: int, p: Proto)
    ensures var before, after := PortSlot(ports, port, p), PortSlot(RecordPort(ports, e), port, p);
      && (!Hits(e, port, p) ==> after == before)
      && (Hits(e, port, p) && before.None? ==> after == Some(PortRec(e.name, e.desc)))
      && (before.Some? && e.name == "" ==> after == before)
      && (before.Some? && before.value.name != "" ==> after == before)
      && (Hits(e, port, p) && before.Some? && before.value.name == "" && e.name != "" ==>
            after == Some(PortRec(e.name, e.desc)))
  {
  }

  lemma RecordPortKeys(ports: PortIndex, e: Entry)
    ensures RecordPort(ports, e).Keys == ports.Keys + {e.port}
    ensures RecordPort(ports, e)[e.port] != map[]
    ensures forall port :: port in ports && port != e.port ==> RecordPort(ports, e)[port] == ports[port]
  {
    var slots := if e.port in ports then ports[e.port] else map[];
    if e.proto !in slots || (e.name != "" && slots[e.proto].name == "") {
      assert e.proto in RecordPort(ports, e)[e.port];
    } else {
      assert e.port in ports && e.proto in ports[e.port];
    }
  }

  lemma InsertKeepsOrder(ix: Indices, e: Entry)
    requires OrderValid(ix)
    ensures OrderValid(Insert(ix, e))
  {
  }

  lemma InsertKeepsCrossIndex(ix: Indices, e: Entry)
    requires Valid(ix)
    ensures var ix' := Insert(ix, e);
      forall n :: n in ix'.services ==>
        forall p :: p in ix'.services[n].ports ==> NamedSlot(ix'.ports, ix'.services[n].ports[p], p)
  {
    var ix' := Insert(ix, e);
    forall n, p | n in ix'.services && p in ix'.services[n].ports
      ensures NamedSlot(ix'.ports, ix'.services[n].ports[p], p)
    {
      var port := ix'.services[n].ports[p];
      PortCollisionRule(ix.ports, e, port, p);
      if n == e.name && p == e.proto {
        assert port == e.port;
      } else {
        assert n in ix.services && p in ix.services[n].ports && port == ix.services[n].ports[p];
      }
    }
  }

  lemma InsertPreservesValid(ix: Indices, e: Entry)
    requires Valid(ix)
    ensures Valid(Insert(ix, e))
  {
    var ix' := Insert(ix, e);
    RecordPortKeys(ix.ports, e);
    InsertKeepsOrder(ix, e);
    InsertKeepsCrossIndex(ix, e);
    assert forall n :: n in ix'.services ==> n != "" && ix'.services[n].ports != map[] by {
      if e.name != "" {
        assert e.proto in ix'.services[e.name].ports;
      }
    }
  }

  lemma {:induction false} ApplyAllPreservesValid(ix: Indices, es: seq<Entry>)
    requires Valid(ix)
    ensures Valid(ApplyAll(ix, es))
  {
    if es != [] {
      ApplyAllPreservesValid(ix, es[..|es| - 1]);
      InsertPreservesValid(ApplyAll(ix, es[..|es| - 1]), es[|es| - 1]);
    }
  }

  /** Every index load_services can build has the shape above: every port key has a
      record, every service has a non-empty name and at least one port, and each
      service port points at a named record for that protocol in the port index. */
  lemma BuildValid(table: seq<Row>)
    ensures Valid(Build(table))
  {
    if table != [] {
      ApplyAllPreservesValid(Empty, Accepted(table[1..]));
    }
  }

  // ---------------------------------------------------------------------------
  // Rows that do not reach the indices.

  /** The first row is consumed whatever it holds. */
  lemma HeaderNeverIndexed(table: seq<Row>, header: Row)
    requires table != []
    ensures Build(table[0 := header]) == Build(table)
    ensures Build([header]) == Empty
  {
    assert table[0 := header][1..] == table[1..];
  }

  /** A rejected row, wherever it is put after the header, changes neither index. */
  lemma RejectedRowIgnored(table: seq<Row>, k: nat, row: Row)
    requires 1 <= k <= |table|
    requires ParseRow(row).Err?
    ensures Build(table[..k] + [row] + table[k..]) == Build(table)
  {
    var t := table[..k] + [row] + table[k..];
    assert t[1..] == table[1..k] + [row] + table[k..];
    assert table[1..] == table[1..k] + table[k..];
    AcceptedAppend(table[1..k] + [row], table[k..]);
    AcceptedSnoc(table[1..k], row);
    AcceptedAppend(table[1..k], table[k..]);
  }

  // ---------------------------------------------------------------------------
  // What the port index holds, in terms of the accepted entries.

  /** Entry i is the one whose record slot (port, p) keeps: the first hit with a
      non-empty name or, when no hit has a name, the first hit. */
  ghost predicate Kept(es: seq<Entry>, i: int, port: int, p: Proto) {
    && 0 <= i < |es| && Hits(es[i], port, p)
    && if es[i].name != "" then
         forall j :: 0 <= j < i && Hits(es[j], port, p) ==> es[j].name == ""
       else
         && (forall j :: 0 <= j < i ==> !Hits(es[j], port, p))
         && (forall j :: 0 <= j < |es| && Hits(es[j], port, p) ==> es[j].name == "")
  }

  lemma KeptFirst(pre: seq<Entry>, e: Entry, port: int, p: Proto)
    requires forall j :: 0 <= j < |pre| ==> !Hits(pre[j], port, p)
    requires Hits(e, port, p)
    ensures Kept(pre + [e], |pre|, port, p)
  {
    var es := pre + [e];
    assert forall j :: 0 <= j < |pre| ==> es[j] == pre[j];
  }

  lemma KeptStays(pre: seq<Entry>, e: Entry, i: int, port: int, p: Proto)
    requires Kept(pre, i, port, p)
    requires !(Hits(e, port, p) && pre[i].name == "" && e.name != "")
    ensures Kept(pre + [e], i, port, p)
  {
    var es := pre + [e];
    assert forall j :: 0 <= j < |pre| ==> es[j] == pre[j];
  }

  lemma KeptReplaced(pre: seq<Entry>, e: Entry, i: int, port: int, p: Proto)
    requires Kept(pre, i, port, p)
    requires Hits(e, port, p) && pre[i].name == "" && e.name != ""
    ensures Kept(pre + [e], |pre|, port, p)
  {
    var es := pre + [e];
    assert forall j :: 0 <= j < |pre| ==> es[j] == pre[j];
  }

  lemma {:induction false} PortSlotIsKept(es: seq<Entry>, port: int, p: Proto)
    ensures var slot := PortSlot(ApplyAll(Empty, es).ports, port, p);
      && (slot.None? <==> forall i :: 0 <= i < |es| ==> !Hits(es[i], port, p))
      && (slot.Some? ==> exists i :: Kept(es, i, port, p) && slot.value == PortRec(es[i].name, es[i].desc))
  {
    if es != [] {
      var pre, e := es[..|es| - 1], es[|es| - 1];
      assert es == pre + [e];
      PortSlotIsKept(pre, port, p);
      var before := PortSlot(ApplyAll(Empty, pre).ports, port, p);
      PortCollisionRule(ApplyAll(Empty, pre).ports, e, port, p);
      if before.None? {
        if Hits(e, port, p) {
          KeptFirst(pre, e, port, p);
        }
      } else {
        var i :| Kept(pre, i, port, p) && before.value == PortRec(pre[i].name, pre[i].desc);
        if Hits(e, port, p) && pre[i].name == "" && e.name != "" {
          KeptReplaced(pre, e, i, port, p);
        } else {
          KeptStays(pre, e, i, port, p);
        }
      }
    }
  }

  /** A slot that holds a name keeps it whatever rows follow. */
  lemma {:induction false} NamedSlotStable(ix: Indices, es: seq<Entry>, port: int, p: Proto)
    requires NamedSlot(ix.ports, port, p)
    ensures PortSlot(ApplyAll(ix, es).ports, port, p) == PortSlot(ix.ports, port, p)
  {
    if es != [] {
      NamedSlotStable(ix, es[..|es| - 1], port, p);
      PortCollisionRule(ApplyAll(ix, es[..|es| - 1]).ports, es[|es| - 1], port, p);
    }
  }

  // ---------------------------------------------------------------------------
  // What the service index holds, in terms of the accepted entries.

  predicate Names(e: Entry, n: string) {
    e.name == n
  }

  /** A name is a key exactly when it is non-empty and some accepted entry carries it. */
  lemma {:induction false} ServiceKeys(es: seq<Entry>, n: string)
    ensures n in ApplyAll(Empty, es).services <==> n != "" && exists i :: 0 <= i < |es| && Names(es[i], n)
  {
    if es != [] {
      var pre := es[..|es| - 1];
      ServiceKeys(pre, n);
      if n in ApplyAll(Empty, pre).services {
        var i :| 0 <= i < |pre| && Names(pre[i], n);
        assert Names(es[i], n);
      }
      if n != "" && (exists i :: 0 <= i < |es| && Names(es[i], n)) {
        var i :| 0 <= i < |es| && Names(es[i], n);
        if i < |pre| {
          assert Names(pre[i], n);
        }
      }
    }
  }

  /** Entry i is the last one for service n over protocol p. */
  ghost predicate LastFor(es: seq<Entry>, i: int, n: string, p: Proto) {
    && 0 <= i < |es| && Names(es[i], n) && es[i].proto == p
    && forall j :: i < j < |es| ==> !(Names(es[j], n) && es[j].proto == p)
  }

  /** The service-index update, for one name. */
  lemma RecordServiceAt(services: ServiceIndex, e: Entry, n: string)
    requires n != ""
    ensures var after := RecordService(services, e);
      && (n in after <==> n in services || Names(e, n))
      && (n in after ==> after[n].ports == if Names(e, n) then (if n in services then services[n].ports else map[])[e.proto := e.port] else services[n].ports)
  {
  }

  /** Some entry gives n a port for p in pre + [e] exactly when one in pre does or e does. */
  lemma HasProtoSnoc(pre: seq<Entry>, e: Entry, n: string, p: Proto)
    ensures (exists i :: 0 <= i < |pre + [e]| && Names((pre + [e])[i], n) && (pre + [e])[i].proto == p)
        <==> (exists i :: 0 <= i < |pre| && Names(pre[i], n) && pre[i].proto == p) || (Names(e, n) && e.proto == p)
  {
    var es := pre + [e];
    if exists i :: 0 <= i < |es| && Names(es[i], n) && es[i].proto == p {
      var i :| 0 <= i < |es| && Names(es[i], n) && es[i].proto == p;
      if i < |pre| {
        assert Names(pre[i], n) && pre[i].proto == p;
      }
    }
    if exists i :: 0 <= i < |pre| && Names(pre[i], n) && pre[i].proto == p {
      var i :| 0 <= i < |pre| && Names(pre[i], n) && pre[i].proto == p;
      assert Names(es[i], n) && es[i].proto == p;
    }
    if Names(e, n) && e.proto == p {
      assert Names(es[|pre|], n) && es[|pre|].proto == p;
    }
  }

  /** A service has a port for protocol p exactly when some accepted entry gives it one. */
  lemma {:induction false} ServiceHasProto(es: seq<Entry>, n: string, p: Proto)
    requires n in ApplyAll(Empty, es).services
    ensures p in ApplyAll(Empty, es).services[n].ports <==> exists i :: 0 <= i < |es| && Names(es[i], n) && es[i].proto == p
  {
    var pre, e := es[..|es| - 1], es[|es| - 1];
    assert es == pre + [e];
    assert ApplyAll(Empty, es).services == RecordService(ApplyAll(Empty, pre).services, e);
    ServiceKeys(es, n);
    RecordServiceAt(ApplyAll(Empty, pre).services, e, n);
    HasProtoSnoc(pre, e, n, p);
    if n in ApplyAll(Empty, pre).services {
      ServiceHasProto(pre, n, p);
    } else {
      ServiceKeys(pre, n);
    }
  }

  /** Any entry for service n and protocol p is followed by a last one. */
  lemma {:induction false} LastForExists(es: seq<Entry>, k: int, n: string, p: Proto)
    requires 0 <= k < |es| && Names(es[k], n) && es[k].proto == p
    ensures exists i :: LastFor(es, i, n, p)
  {
    var pre, e := es[..|es| - 1], es[|es| - 1];
    if Names(e, n) && e.proto == p {
      assert LastFor(es, |es| - 1, n, p);
    } else {
      assert k < |pre| && pre[k] == es[k];
      LastForExists(pre, k, n, p);
      var i :| LastFor(pre, i, n, p);
      assert LastFor(es, i, n, p);
    }
  }

  /** The port a service has for a protocol is that of the last accepted entry for
      that service and protocol: a later row overwrites an earlier one. */
  lemma {:induction false} ServicePortIsLast(es: seq<Entry>, i: int, n: string, p: Proto)
    requires n != "" && LastFor(es, i, n, p)
    ensures n in ApplyAll(Empty, es).services
    ensures p in ApplyAll(Empty, es).services[n].ports && ApplyAll(Empty, es).services[n].ports[p] == es[i].port
  {
    var pre, e := es[..|es| - 1], es[|es| - 1];
    assert ApplyAll(Empty, es).services == RecordService(ApplyAll(Empty, pre).services, e);
    RecordServiceAt(ApplyAll(Empty, pre).services, e, n);
    if i < |pre| {
      assert LastFor(pre, i, n, p);
      ServicePortIsLast(pre, i, n, p);
    }
  }

  /** Entry i is the first one for service n that has a description. */
  ghost predicate FirstDescFor(es: seq<Entry>, i: int, n: string) {
    && 0 <= i < |es| && Names(es[i], n) && es[i].desc != ""
    && forall j :: 0 <= j < i && Names(es[j], n) ==> es[j].desc == ""
  }

  /** The description one row leaves for the name n it carries. */
  lemma RecordServiceDesc(services: ServiceIndex, e: Entry, n: string)
    requires n != "" && Names(e, n)
    ensures var after := RecordService(services, e);
      n in after && after[n].desc == if n in services && services[n].desc != "" then services[n].desc else e.desc
  {
  }

  lemma NoDescSnoc(pre: seq<Entry>, e: Entry, n: string)
    ensures (forall j :: 0 <= j < |pre + [e]| && Names((pre + [e])[j], n) ==> (pre + [e])[j].desc == "")
        <==> (forall j :: 0 <= j < |pre| && Names(pre[j], n) ==> pre[j].desc == "") && (Names(e, n) ==> e.desc == "")
  {
    var es := pre + [e];
    assert forall j :: 0 <= j < |pre| ==> es[j] == pre[j];
    assert es[|pre|] == e;
  }

  lemma FirstDescStays(pre: seq<Entry>, e: Entry, i: int, n: string)
    requires FirstDescFor(pre, i, n)
    ensures FirstDescFor(pre + [e], i, n)
  {
    var es := pre + [e];
    assert forall j :: 0 <= j < |pre| ==> es[j] == pre[j];
  }

  lemma FirstDescNew(pre: seq<Entry>, e: Entry, n: string)
    requires forall j :: 0 <= j < |pre| && Names(pre[j], n) ==> pre[j].desc == ""
    requires Names(e, n) && e.desc != ""
    ensures FirstDescFor(pre + [e], |pre|, n)
  {
    var es := pre + [e];
    assert forall j :: 0 <= j < |pre| ==> es[j] == pre[j];
  }

  /** A service's description is the first non-empty description among its entries,
      or empty when none has one. */
  lemma {:induction false} ServiceDescIsFirst(es: seq<Entry>, n: string)
    requires n in ApplyAll(Empty, es).services
    ensures var d := ApplyAll(Empty, es).services[n].desc;
      && (d == "" <==> forall j :: 0 <= j < |es| && Names(es[j], n) ==> es[j].desc == "")
      && (d != "" ==> exists i :: FirstDescFor(es, i, n) && d == es[i].desc)
  {
    var pre, e := es[..|es| - 1], es[|es| - 1];
    assert es == pre + [e];
    var services := ApplyAll(Empty, pre).services;
    assert ApplyAll(Empty, es).services == RecordService(services, e);
    NoDescSnoc(pre, e, n);
    ServiceKeys(pre, n);
    if n in services {
      ServiceDescIsFirst(pre, n);
      var before := services[n].desc;
      if Names(e, n) {
        RecordServiceDesc(services, e, n);
      } else {
        assert RecordService(services, e)[n] == services[n];
      }
      if before != "" {
        var i :| FirstDescFor(pre, i, n) && before == pre[i].desc;
        FirstDescStays(pre, e, i, n);
      } else if Names(e, n) && e.desc != "" {
        FirstDescNew(pre, e, n);
      }
    } else {
      ServiceKeys(es, n);
      assert Names(e, n) by {
        var i :| 0 <= i < |es| && Names(es[i], n);
        if i < |pre| {
          assert false;
        }
      }
      RecordServiceDesc(services, e, n);
      if e.desc != "" {
        FirstDescNew(pre, e, n);
      }
    }
  }

  /** A filled description stays as it is whatever rows follow. */
  lemma {:induction false} DescriptionStable(ix: Indices, es: seq<Entry>, n: string)
    requires n in ix.services && ix.services[n].desc != ""
    ensures n in ApplyAll(ix, es).services && ApplyAll(ix, es).services[n].desc == ix.services[n].desc
  {
    if es != [] {
      DescriptionStable(ix, es[..|es| - 1], n);
    }
  }

  /** Every entry naming y comes after some entry naming x. */
  ghost predicate AppearsBefore(es: seq<Entry>, x: string, y: string) {
    forall j :: 0 <= j < |es| && Names(es[j], y) ==> exists i :: 0 <= i < j && Names(es[i], x)
  }

  /** A later entry never undoes x appearing before y. */
  lemma AppearsBeforeKept(pre: seq<Entry>, e: Entry, x: string, y: string)
    requires AppearsBefore(pre, x, y)
    requires exists i :: 0 <= i < |pre| && Names(pre[i], x)
    ensures AppearsBefore(pre + [e], x, y)
  {
    var es := pre + [e];
    assert forall j :: 0 <= j < |pre| ==> es[j] == pre[j];
  }

  lemma AppearsBeforeNew(pre: seq<Entry>, e: Entry, x: string, y: string)
    requires forall j :: 0 <= j < |pre| ==> !Names(pre[j], y)
    requires exists i :: 0 <= i < |pre| && Names(pre[i], x)
    ensures AppearsBefore(pre + [e], x, y)
  {
    var es := pre + [e];
    assert forall j :: 0 <= j < |pre| ==> es[j] == pre[j];
  }

  /** order is the order in which service names first appear among the entries. */
  lemma {:induction false} OrderIsFirstAppearance(es: seq<Entry>)
    ensures var order := ApplyAll(Empty, es).order;
      forall a, b :: 0 <= a < b < |order| ==> AppearsBefore(es, order[a], order[b])
  {
    if es != [] {
      var pre, e := es[..|es| - 1], es[|es| - 1];
      assert es == pre + [e];
      OrderIsFirstAppearance(pre);
      ApplyAllPreservesValid(Empty, pre);
      var before := ApplyAll(Empty, pre);
      var order := ApplyAll(Empty, es).order;
      forall a, b | 0 <= a < b < |order|
        ensures AppearsBefore(es, order[a], order[b])
      {
        var x, y := order[a], order[b];
        assert x == before.order[a];
        ServiceKeys(pre, x);
        if b < |before.order| {
          AppearsBeforeKept(pre, e, x, y);
        } else {
          ServiceKeys(pre, y);
          AppearsBeforeNew(pre, e, x, y);
        }
      }
    }
  }

  /** The two dictionary updates for one accepted row: the port slot, then the
      service record and, for a new name, its place in the key order. */
  method RecordEntry(ports: PortIndex, services: ServiceIndex, order: seq<string>, e: Entry)
    returns (ports': PortIndex, services': ServiceIndex, order': seq<string>)
    ensures Indices(ports', services', order') == Insert(Indices(ports, services, order), e)
  {
    ports', services', order' := ports, services, order;
    if e.port !in ports' {
      ports' := ports'[e.port := map[]];
    }
    if e.proto !in ports'[e.port] || (e.name != "" && ports'[e.port][e.proto].name == "") {
      ports' := ports'[e.port := ports'[e.port][e.proto := PortRec(e.name, e.desc)]];
    }
    if e.name != "" {
      if e.name !in services' {
        services' := services'[e.name := ServiceRec(e.desc, map[])];
        order' := order' + [e.name];
      }
      services' := services'[e.name := services'[e.name].(ports := services'[e.name].ports[e.proto := e.port])];
      if e.desc != "" && services'[e.name].desc == "" {
        services' := services'[e.name := services'[e.name].(desc := e.desc)];
      }
    }
  }

  /** What one row after the header does to the indices. */
  function Step(ix: Indices, row: Row): Indices {
    match ParseRow(row)
    case Ok(e) => Insert(ix, e)
    case Err(_) => ix
  }

  /** Folding one more row in is one more `Step`. */
  lemma BuildSnoc(rows: seq<Row>, row: Row)
    ensures ApplyAll(Empty, Accepted(rows + [row])) == Step(ApplyAll(Empty, Accepted(rows)), row)
  {
    AcceptedSnoc(rows, row);
    if ParseRow(row).Ok? {
      var es := Accepted(rows);
      assert (es + [ParseRow(row).value])[..|es|] == es;
    }
  }

  /** The same, for the rows of the table up to row i. */
  lemma BuildPrefixStep(table: seq<Row>, i: int)
    requires 1 <= i < |table|
    ensures ApplyAll(Empty, Accepted(table[1..i + 1])) == Step(ApplyAll(Empty, Accepted(table[1..i])), table[i])
  {
    assert table[1..i + 1] == table[1..i] + [table[i]];
    BuildSnoc(table[1..i], table[i]);
  }

  /** The rows up to the last one are all of the rows after the first. */
  lemma BuildPrefixAll(table: seq<Row>)
    requires table != []
    ensures ApplyAll(Empty, Accepted(table[1..|table|])) == Build(table)
  {
    assert table[1..|table|] == table[1..];
  }

  /** The body of the loop for one row: each check that fails skips the row, as
      `continue` does; a row that passes every check updates both dictionaries. */
  method IngestRow(ports: PortIndex, services: ServiceIndex, order: seq<string>, row: Row)
    returns (ports': PortIndex, services': ServiceIndex, order': seq<string>)
    ensures Indices(ports', services', order') == Step(Indices(ports, services, order), row)
  {
    ports', services', order' := ports, services, order;
    if |row| < 4 {
      return;
    }
    var name := Trim(row[0]);
    var portText := Trim(row[1]);
    var proto := Lower(Trim(row[2]));
    var desc := Trim(row[3]);
    assert ParseRow(row) == CheckFields(name, portText, proto, desc);
    if portText == "" || proto == "" {
      return;
    }
    if proto != "tcp" && proto != "udp" {
      return;
    }
    var parsed := ParseInt(portText);
    if parsed.None? {
      return;
    }
    var port := parsed.value;
    var p := if proto == "tcp" then TCP else UDP;
    ports', services', order' := RecordEntry(ports, services, order, Entry(name, port, p, desc));
  }

  /** load_services itself: one pass over the rows after the header, updating the
      two dictionaries in place. */
  method LoadServices(table: seq<Row>) returns (ix: Indices)
    ensures ix == Build(table)
    ensures Valid(ix)
  {
    BuildValid(table);
    if table == [] {
      return Empty;
    }
    var ports: PortIndex := map[];
    var services: ServiceIndex := map[];
    var order: seq<string> := [];
    for i := 1 to |table|
      invariant Indices(ports, services, order) == ApplyAll(Empty, Accepted(table[1..i]))
    {
      BuildPrefixStep(table, i);
      ports, services, order := IngestRow(ports, services, order, table[i]);
    }
    BuildPrefixAll(table);
    ix := Indices(ports, services, order);
  }
}
