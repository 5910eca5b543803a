/** The service record every parser fills in, the ordered mapping of
    records a parser accumulates, and the errors that abort the parsing of
    one file. */
module Records {
  import opened Outcomes
  import opened Issues

  /** An Issue as a parser creates it: its id and its values. */
  datatype Finding = Finding(id: string, values: map<string, Value>)

  function FindingOf(i: Issue): Finding {
    Finding(i.id, i.values)
  }

  function Findings(s: seq<Issue>): (r: seq<Finding>)
    ensures |r| == |s|
  {
    seq(|s|, k requires 0 <= k < |s| => FindingOf(s[k]))
  }

  lemma FindingsAppend(s: seq<Issue>, i: Issue)
    ensures Findings(s + [i]) == Findings(s) + [FindingOf(i)]
  {
  }

  /** One open service (`SERVICE_SCHEMA`). `I` is what the `issues` list
      holds: the Issue objects themselves, or their findings when a record
      is described by a specification. */
  datatype Record<I> = Record(
    address: Option<string>,
    port: Option<string>,
    transportProtocol: Option<string>,
    version: Option<string>,
    protocols: seq<string>,
    encryptionLevel: Option<string>,
    nla: bool,
    issues: seq<I>,
    misc: seq<string>,
    info: seq<string>)

  /** A record as the parsers store it. */
  type Service = Record<Issue>

  /** The empty record each new service starts from, a fresh copy each time. */
  function Schema<I>(): Record<I> {
    Record(None, None, None, None, [], None, false, [], [], [])
  }

  /** A stored record with each Issue replaced by its finding. */
  function View(r: Service): Record<Finding> {
    Record(r.address, r.port, r.transportProtocol, r.version, r.protocols,
           r.encryptionLevel, r.nla, Findings(r.issues), r.misc, r.info)
  }

  /** The key records are stored and deduplicated under:
      `address:port (transport_protocol)`. */
  function Identifier(address: string, port: string, transportProtocol: string): string {
    address + ":" + port + " (" + transportProtocol + ")"
  }

  /** The text recorded in `info` for a script result that is not parsed. */
  function NotParsed(scriptId: string): string {
    "Nmap script scan result not parsed: '" + scriptId + "'"
  }

  /** The `services` dictionary: its entries, and its keys in insertion
      order (a Python dictionary iterates in that order). */
  datatype Table<I> = Table(records: map<string, Record<I>>, order: seq<string>)

  /** The order lists every key exactly once. */
  ghost predicate Valid<I>(t: Table<I>) {
    && (forall i, j :: 0 <= i < j < |t.order| ==> t.order[i] != t.order[j])
    && (forall k :: k in t.records <==> k in t.order)
  }

  /** `services[id] = r`: a new key goes to the end of the order, an
      existing key keeps its place. */
  function Assign<I>(t: Table<I>, id: string, r: Record<I>): (u: Table<I>)
    ensures u.records == t.records[id := r]
    ensures u.order == (if id in t.records then t.order else t.order + [id])
    ensures Valid(t) ==> Valid(u)
  {
    Table(t.records[id := r], if id in t.records then t.order else t.order + [id])
  }

  function ViewTable(t: Table<Issue>): Table<Finding> {
    Table(map k | k in t.records :: View(t.records[k]), t.order)
  }

  lemma ViewAssign(t: Table<Issue>, id: string, r: Service)
    ensures ViewTable(Assign(t, id, r)) == Assign(ViewTable(t), id, View(r))
  {
  }

  /** `u` is `t` with records added: every record of `t` is still there,
      unchanged and in the same place. */
  ghost predicate Extends(t: Table<Finding>, u: Table<Finding>) {
    && t.order <= u.order
    && forall k :: k in t.records ==> k in u.records && u.records[k] == t.records[k]
  }

  lemma ExtendsTransitive(t: Table<Finding>, u: Table<Finding>, v: Table<Finding>)
    requires Extends(t, u) && Extends(u, v)
    ensures Extends(t, v)
  {
  }

  /** The exceptions that abort the parsing of one file: a node the parser
      dereferences is missing, the version pattern does not match, an
      element it strips has no text, the file name has too few tokens, or
      the file cannot be read as XML. */
  datatype ParseError =
    | MissingAddressNode
    | MissingStateNode
    | MissingServiceNode
    | NoVersionMatch(version: string)
    | MissingElemText(key: string)
    | TooFewFilenameTokens(filename: string)
    | Unreadable(path: string)

  /** The mapping after parsing (part of) a file, and the error that
      stopped it, if any. Records added before the error stay. */
  datatype Parsed = Parsed(table: Table<Finding>, failure: Option<ParseError>)
}
