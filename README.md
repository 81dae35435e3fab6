# ps-converter in Dafny

ps-converter downloads the IANA service-name and port-number registry as CSV and
builds two dictionaries from it:

- the port index, from a port number to a record per transport protocol (`tcp`,
  `udp`) holding a service name and a description;
- the service index, from a service name to its description and its port per
  protocol.

It then answers queries typed at a prompt. A number asks about a port. Anything
else asks about a service name: first by exact key, then by the first key in
insertion order that matches ignoring case.

This project models that core:

- `text.dfy` (module `Text`): the string primitives the program relies on, over
  ASCII. These are `strip()`, `lower()`, `isdigit()` and `int()` on a string.
- `ingest.dfy` (module `Ingest`): `load_services`.
  - `ParseRow` gives the checks one row goes through, in their order.
  - `Build` is the specification. It drops the first row, keeps the rows that pass
    the checks (`Accepted`), and folds them into both indices (`ApplyAll` over
    `Insert`).
  - `LoadServices` is the loop itself. Its body, `IngestRow`, returns early where
    the code has `continue`. It updates the dictionaries one row at a time and is
    proved equal to `Build`.
  - `Indices.order` lists the service index's keys in insertion order. That is the
    order the case-insensitive search scans a Python dict in.
- `lookup.dfy` (module `Lookup`): the body of the prompt loop in `main`.
  - `Classify` decides between quit, blank, port and name.
  - `QueryPort` is the port query.
  - `Resolve` and `ServiceQuery` specify the name query. `QueryService` is its
    scanning loop with `break`.
  - `Respond` is one turn of the loop.
- `wrappers.dfy`: `Option` and `Result`.

Where the code differs from what its comments and docstring suggest, the model
follows the code:

- The first row is always consumed. The test `header[0] != 'Service Name'` only
  runs `pass`, so a first row that is data is dropped too
  (`Ingest.HeaderNeverIndexed`).
- `int()` accepts a leading `+` or `-`. Signed and negative port numbers are
  therefore indexed, although a port query can never reach a negative one.
- A port slot keeps the first row that has a non-empty name, or else the first row
  (`Ingest.PortSlotIsKept`). So a port query for an accepted row whose port is in
  0..64738 reports a record for its protocol. When the row has a name, that record
  has a non-empty name, though not necessarily that row's
  (`Lookup.AcceptedRowAnswered`, `Lookup.FirstNamedRowWins`).
- Every port a service points at holds a named record (`Ingest.Valid`). The
  converse does not hold:
  - the name in a port record need not be a service whose port is that one
    (`Lookup.PortNameMayDifferFromService`);
  - a named slot need not be where its service points
    (`Lookup.ServiceMayMoveOffNamedSlot`).

## Model

The reference definitions carry no contract of their own and have no row. The
lemmas below characterise them:
- `Ingest.RecordPort` (`ps-converter.py:74-78`): `Ingest.PortCollisionRule` and
  `Ingest.RecordPortKeys`.
- `Ingest.RecordService` (`81-92`): `Ingest.ServiceKeys`, `Ingest.ServiceHasProto`,
  `Ingest.ServicePortIsLast` and `Ingest.ServiceDescIsFirst`.
- `Ingest.Insert` (`64-92`): these, plus `Ingest.InsertKeepsOrder` and
  `Ingest.InsertPreservesValid`.
- `Ingest.Build` (`32-92`): `Ingest.BuildValid`, `Ingest.HeaderNeverIndexed`,
  `Ingest.PortSlotIsKept` and `Ingest.OrderIsFirstAppearance`.
- `Lookup.ServiceQuery` (`145-176`): `Lookup.Resolve` and `Lookup.QueryService`.
- `Text.IsDigits` (`isdigit()`, line 118): `Lookup.Classify`.

| member | source | states |
|---|---|---|
| Text.Trim | ps-converter.py:45-48 | `strip()` leaves no whitespace at either end and never lengthens the string |
| Text.TrimRemovesOnlyEdges | ps-converter.py:45-48 | the input is some whitespace, then `strip()`'s result, then some whitespace |
| Text.TrimPadded | ps-converter.py:45-48 | stripping any whitespace-padded stripped string gives that string back |
| Text.TrimTrimmed | ps-converter.py:45-48 | `strip()` leaves a string with no edge whitespace unchanged |
| Text.Lower | ps-converter.py:47 | `lower()` keeps the length and lower-cases each character on its own |
| Text.ParseInt | ps-converter.py:58-62 | `int()` succeeds exactly on an optional `+` or `-` followed by one or more digits; the value is that of the digits, leading zeros allowed, negated after a `-` |
| Text.Decimal | ps-converter.py:124 | the printed form of a non-negative port: one or more digits with no leading zero; `Text.DecimalRoundTrip` shows it reads back as the number |
| Text.DecimalRoundTrip | ps-converter.py:118-119 | the digits of any natural number read back as that number |
| Text.ParseIntRoundTrip | ps-converter.py:58-62 | `int(str(n)) == n` for every integer n, and `str(n)` has no edge whitespace |
| Ingest.ParseRow | ps-converter.py:41-62 | a row is accepted exactly when it has at least four fields, its stripped port parses as an integer and its stripped lower-cased protocol is `tcp` or `udp`; an accepted entry carries the stripped name and description, the parsed port and that protocol |
| Ingest.CheckFields | ps-converter.py:50-62 | the checks on the stripped fields accept exactly when the port text parses as an integer and the protocol is `tcp` or `udp`, and build the entry from those fields |
| Ingest.ParseRowAccepts | ps-converter.py:41-62 | any row whose stripped fields give an entry's name, port, protocol and description is accepted as exactly that entry |
| Ingest.ParseRowRoundTrip | ps-converter.py:41-62 | every entry with stripped name and description is accepted back from the row that lists it |
| Ingest.ExtraFieldsIgnored | ps-converter.py:41-48 | fields after the fourth never change the outcome |
| Ingest.AcceptedAppend | ps-converter.py:40-62 | the accepted entries of two blocks of rows are those of the first block followed by those of the second |
| Ingest.AcceptedSnoc | ps-converter.py:40-62 | a rejected row adds nothing, and an accepted row adds its entry at the end |
| Ingest.PortCollisionRule | ps-converter.py:64-78 | one row writes only its own slot; it fills an empty slot; it never touches a slot holding a name; it replaces an unnamed record only when it has a name itself |
| Ingest.RecordPortKeys | ps-converter.py:65-66 | the row's port becomes a key with a non-empty record map, and other ports are untouched |
| Ingest.InsertKeepsOrder | ps-converter.py:86-87 | one row keeps the key order listing each service key once |
| Ingest.InsertPreservesValid | ps-converter.py:64-92 | one row keeps the shape invariant of both indices |
| Ingest.ApplyAllPreservesValid | ps-converter.py:40-92 | any sequence of rows keeps the shape invariant |
| Ingest.BuildValid | ps-converter.py:32-92 | the built indices satisfy the invariant: ordered unique keys, non-empty port records, named services with at least one port, and each service port points at a named record for its protocol |
| Ingest.HeaderNeverIndexed | ps-converter.py:32-38 | whatever the first row holds, it does not change either index |
| Ingest.RejectedRowIgnored | ps-converter.py:40-62 | inserting a rejected row anywhere after the first changes neither index |
| Ingest.PortSlotIsKept | ps-converter.py:64-78 | a slot is empty exactly when no accepted entry hits it; otherwise it holds the first hitting entry with a name or, if none has a name, the first hitting entry |
| Ingest.NamedSlotStable | ps-converter.py:74 | a slot holding a name keeps it whatever rows follow |
| Ingest.ServiceKeys | ps-converter.py:81-87 | a name is a service key exactly when it is non-empty and some accepted entry carries it |
| Ingest.ServiceHasProto | ps-converter.py:81-89 | a service has a port for a protocol exactly when one of its entries uses that protocol |
| Ingest.ServicePortIsLast | ps-converter.py:89 | a service's port for a protocol is that of its last entry for that protocol |
| Ingest.ServiceDescIsFirst | ps-converter.py:86-92 | a service's description is the first non-empty description among its entries, or empty when there is none |
| Ingest.DescriptionStable | ps-converter.py:91-92 | a filled description is never changed by later rows |
| Ingest.OrderIsFirstAppearance | ps-converter.py:86-87 | service keys are ordered by the first appearance of their names among the accepted entries |
| Ingest.RecordEntry | ps-converter.py:64-92 | the in-place dictionary updates for one accepted row give the same indices as the specification's `Insert` |
| Ingest.IngestRow | ps-converter.py:41-92 | one pass of the loop body leaves both dictionaries as they were for a rejected row, and applies `Insert` with the row's entry for an accepted one |
| Ingest.LoadServices | ps-converter.py:32-92 | the loop over the rows after the first builds exactly `Build(table)`, and the result satisfies the invariant |
| Lookup.DigitsAreNotQuitWords | ps-converter.py:111-118 | no numeral is a quit word, so the quit test never hides a port query |
| Lookup.Classify | ps-converter.py:106-118 | on the stripped line: quit exactly for `q`, `quit` or `exit` in any case, blank exactly when empty, port exactly when all digits (with the numeral's value), and otherwise a name query for the stripped line |
| Lookup.ClassifyIgnoresPadding | ps-converter.py:106 | surrounding whitespace never changes what a line asks for |
| Lookup.PortLineIsPortCommand | ps-converter.py:106-119 | the padded numeral of any natural number n asks about port n |
| Lookup.QueryPort | ps-converter.py:118-142 | out of range exactly outside 0..64738; no known services exactly for an in-range port that is not a key; otherwise each protocol reports the stored record or "not mapped" |
| Lookup.OutOfRangeIgnoresIndex | ps-converter.py:120-122 | a port above 64738 is refused whatever the index holds |
| Lookup.PortAboveRangeRefused | ps-converter.py:118-122 | a line holding a numeral above 64738 gets the range error whatever the indices hold |
| Lookup.FirstCaseMatch | ps-converter.py:153-158 | the first position whose key equals the query ignoring case, or none exactly when no key matches |
| Lookup.Resolve | ps-converter.py:148-158 | an exact key wins; otherwise the result is the first key in insertion order that equals the query ignoring case; there is no result exactly when no key matches ignoring case |
| Lookup.QueryService | ps-converter.py:145-176 | the scanning loop gives `ServiceQuery`'s answer: not found exactly when no key matches ignoring case; otherwise the matched key in its stored casing, its description and its port per protocol |
| Lookup.Respond | ps-converter.py:111-176 | one turn exits on a quit word, skips a blank line, answers the port query for a numeral and the name query for anything else |
| Lookup.EntryAnswered | ps-converter.py:127-140 | every accepted entry with a port in range makes the port query report a record for its protocol, and a named entry makes it report a name |
| Lookup.AcceptedRowAnswered | ps-converter.py:127-140 | the same for every accepted row after the first |
| Lookup.NameAnswerPortsAreKnown | ps-converter.py:160-174 | each port a name query reports holds a named record for that protocol in the port index |
| Lookup.FirstNamedRowWins | ps-converter.py:74-78 | of two rows on one slot, a named first row is what the port query reports |
| Lookup.NamedRowFillsEmptySlot | ps-converter.py:74-78 | an unnamed first row on a slot is replaced, description included, by the next named row |
| Lookup.PortNameMayDifferFromService | ps-converter.py:74-89 | two services on one slot both point at it, but the slot names only the first |
| Lookup.ServiceMayMoveOffNamedSlot | ps-converter.py:74-89 | a later row for the same service and protocol moves the service's port away from the slot that still names it |
| Lookup.HttpBuild | ps-converter.py:64-92 | the http entries for tcp and then udp build one port key holding both records, and one service with the tcp row's description and both ports |
| Lookup.HttpPortAnswer | ps-converter.py:127-140 | for those entries, a query for port 80 reports http for both protocols |
| Lookup.HttpExactName | ps-converter.py:150-151 | for those entries, a query for `http` finds service `http` with the tcp row's description and port 80 for both protocols |
| Lookup.HttpOtherCase | ps-converter.py:152-158 | for those entries, a query for `HTTP`, which is not a key, falls back to the key `http` and reports the same |

## Left out

- Downloading the registry, decoding it as UTF-8, and the error path that prints
  and exits (`ps-converter.py:14-24`, `94-96`) are I/O. The rows reach
  `Build` and `LoadServices` already split into fields.
- CSV tokenisation by `csv.reader` (quoting, embedded commas and newlines) is not
  modelled. A row is given as its sequence of fields.
- The prompt loop itself is not modelled: reading input, `KeyboardInterrupt` and
  `EOFError`, and all printing. `Respond` models one turn, and its answer
  datatypes stand for what is printed.
- The `found_any` flag is set and never read, so it is not modelled.
- Whitespace, `lower()`, `isdigit()` and `int()` are modelled over ASCII only.
  - Python's `isdigit()` also accepts other Unicode digit characters, including
    some that `int()` rejects. Such a query would raise an uncaught `ValueError`.
  - `int()` also accepts underscores between digits.
  - Neither of these is in the model.
- Text.ParseInt, Ingest.ParseRow, Lookup.Classify: the limit recent CPython releases
  put on the number of digits in `int()` (4300 by default, leading zeros counted) is
  not modelled, because it depends on the interpreter version and its settings. Under
  that limit, a row whose port has more digits raises `ValueError`, which lines
  60-62 catch, so the row is skipped, but the model accepts it. An all-digit query
  that long raises an uncaught `ValueError` at line 119 and ends the program. The
  model answers it as a port query instead: out of range, or, when leading zeros
  bring its value to 64738 or less, the answer for that port.
- Queries never change either index because the indices are immutable values here.
  There is no aliasing to model.
- Lookup.Respond, Lookup.ServiceQuery, Lookup.Resolve and Lookup.QueryService
  require the key order to list the service index's keys. The program has no such
  precondition, but every index `load_services` builds meets it
  (`Ingest.BuildValid`).
- Lookup.HttpBuild, Lookup.HttpPortAnswer, Lookup.HttpExactName and
  Lookup.HttpOtherCase start from the two accepted entries rather than from the two
  CSV rows. `Ingest.ParseRowRoundTrip` shows that rows listing those entries are
  accepted as them.
