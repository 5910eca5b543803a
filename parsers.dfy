/** The parser framework (`AbstractParser` in `analyzers/__init__.py`):
    a parser accumulates service records over a batch of files of its
    file type. Each file's name gives the application and transport
    protocol; its contents go to the variant's Nmap parser. A file that
    fails is passed over, and what it added before failing stays. */
module Parsers {
  import opened Outcomes
  import opened Text
  import opened Issues
  import opened Records
  import opened Nmap
  import RdpNmap
  import NtpNmap

  /** The concrete parsers: `analyzers/rdp/nmap.py` and `analyzers/ntp/nmap.py`. */
  datatype Variant = Rdp | Ntp

  /** The `name` and `file_type` both concrete parsers set. */
  const NmapName := "nmap"
  const XmlFileType := "xml"

  /** `path.split('/')[-1].split(',')` */
  function FilenameTokens(path: string): (tokens: seq<string>)
    ensures |tokens| >= 1
  {
    Split(Basename(path), ',')
  }

  /** The tokens are the base name cut at its commas: joining them gives it
      back, none holds a comma or a '/', and there are at least two exactly
      when the base name holds a comma. */
  lemma FilenameTokensSpec(path: string)
    ensures Join(FilenameTokens(path), ',') == Basename(path)
    ensures forall k :: 0 <= k < |FilenameTokens(path)| ==>
      ',' !in FilenameTokens(path)[k] && '/' !in FilenameTokens(path)[k]
    ensures |FilenameTokens(path)| >= 2 <==> ',' in Basename(path)
  {
    var tokens := FilenameTokens(path);
    SplitJoin(Basename(path), ',');
    BasenameShape(path);
    forall k | 0 <= k < |tokens|
      ensures '/' !in tokens[k]
    {
      if '/' in tokens[k] {
        var i :| 0 <= i < |tokens[k]| && tokens[k][i] == '/';
        JoinHasChar(tokens, ',', k, i);
      }
    }
    if |tokens| >= 2 {
      JoinHasSeparator(tokens, ',');
    }
  }

  /** A character of a piece is a character of the join. */
  lemma {:induction false} JoinHasChar(parts: seq<string>, c: char, k: int, i: int)
    requires 0 <= k < |parts| && 0 <= i < |parts[k]|
    ensures parts[k][i] in Join(parts, c)
    decreases |parts|
  {
    if |parts| > 1 {
      if k == 0 {
        assert Join(parts, c)[i] == parts[0][i];
      } else {
        JoinHasChar(parts[1..], c, k - 1, i);
        var j :| 0 <= j < |Join(parts[1..], c)| && Join(parts[1..], c)[j] == parts[k][i];
        assert Join(parts, c)[|parts[0]| + 1 + j] == parts[k][i];
      }
    }
  }

  /** The naming convention: a file `<dir>/<application>,<transport>[,...]`
      yields exactly those tokens. */
  lemma FilenameConvention(dir: string, application: string, transport: string, more: seq<string>)
    requires ',' !in application && '/' !in application
    requires ',' !in transport && '/' !in transport
    requires forall k :: 0 <= k < |more| ==> ',' !in more[k] && '/' !in more[k]
    ensures FilenameTokens(dir + "/" + Join([application, transport] + more, ',')) == [application, transport] + more
  {
    var parts := [application, transport] + more;
    forall k | 0 <= k < |parts|
      ensures ',' !in parts[k] && '/' !in parts[k]
    {
      if k >= 2 {
        assert parts[k] == more[k - 2];
      }
    }
    var name := Join(parts, ',');
    JoinWithout(parts, ',', '/');
    BasenameAfterSlash(dir, name);
    JoinSplit(parts, ',');
    assert FilenameTokens(dir + "/" + name) == Split(name, ',');
  }

  /** What a parser holds, with Issues given by their findings. */
  datatype ParserState = ParserState(
    services: Table<Finding>,
    applicationProtocol: Option<string>,
    transportProtocol: Option<string>)

  /** The variant's parsing of one XML tree. */
  function DocumentSpec(variant: Variant, t: Table<Finding>, doc: Document): Parsed {
    match variant
    case Rdp => RdpNmap.DocumentSpec(t, doc)
    case Ntp => NtpNmap.DocumentSpec(t, doc)
  }

  /** `parse_file(path)` of a concrete parser: the protocols from the name
      (too few tokens raise after the application protocol is set), then
      the file's tree; `documents` holds the files that can be read and
      parsed as XML. */
  function FileSpec(variant: Variant, st: ParserState, path: string, documents: map<string, Document>): (ParserState, Option<ParseError>) {
    var tokens := FilenameTokens(path);
    var st1 := st.(applicationProtocol := Some(tokens[0]));
    if |tokens| < 2 then (st1, Some(TooFewFilenameTokens(Basename(path))))
    else
      var st2 := st1.(transportProtocol := Some(tokens[1]));
      if path !in documents then (st2, Some(Unreadable(path)))
      else
        var p := DocumentSpec(variant, st2.services, documents[path]);
        (st2.(services := p.table), p.failure)
  }

  /** The loop of `parse_files`: every path in order, a failure only
      logged. */
  function BatchSpec(variant: Variant, st: ParserState, paths: seq<string>, documents: map<string, Document>): ParserState
    decreases |paths|
  {
    if paths == [] then st
    else FileSpec(variant, BatchSpec(variant, st, paths[..|paths| - 1], documents), paths[|paths| - 1], documents).0
  }

  function ParseFilesSpec(variant: Variant, fileType: string, st: ParserState,
                          files: map<string, seq<string>>, documents: map<string, Document>): ParserState {
    if fileType !in files then st else BatchSpec(variant, st, files[fileType], documents)
  }

  /** One file, whether it fails or not, keeps every record already
      stored, unchanged and in place, and keeps the mapping well formed. */
  lemma FileKeepsRecords(variant: Variant, st: ParserState, path: string, documents: map<string, Document>)
    ensures Extends(st.services, FileSpec(variant, st, path, documents).0.services)
    ensures Valid(st.services) ==> Valid(FileSpec(variant, st, path, documents).0.services)
  {
    if |FilenameTokens(path)| >= 2 && path in documents {
      match variant
      case Rdp => RdpNmap.DocumentSpecKeepsAndAdds(st.services, documents[path]);
      case Ntp => NtpNmap.DocumentSpecKeepsAndAdds(st.services, documents[path]);
    }
  }

  /** The variant's loop over hosts, with the table it starts from. */
  function HostsSpec(variant: Variant, t: Table<Finding>, hosts: seq<Host>): Parsed {
    match variant
    case Rdp => RdpNmap.HostsFrom(t, hosts)
    case Ntp => NtpNmap.HostsFrom(t, hosts)
  }

  /** The address the variant uses for a host, if it has one. */
  function HostAddress(variant: Variant, h: Host): Option<string> {
    match variant
    case Rdp => RdpNmap.FirstIpAddress(h.addresses)
    case Ntp => if h.addresses == [] then None else Some(h.addresses[0].addr)
  }

  /** The variant's loop over one host's ports. */
  function PortsSpec(variant: Variant, t: Table<Finding>, address: string, ports: seq<Port>): Parsed {
    match variant
    case Rdp => RdpNmap.PortsFrom(t, address, ports)
    case Ntp => NtpNmap.PortsFrom(t, address, ports)
  }

  /** A file that raises part-way keeps every record that the hosts before
      the failing point stored. */
  lemma FailedFileKeepsPartial(variant: Variant, st: ParserState, path: string, documents: map<string, Document>,
                               a: seq<Host>, b: seq<Host>)
    requires |FilenameTokens(path)| >= 2 && path in documents
    requires documents[path].hosts == a + b
    requires HostsSpec(variant, st.services, a).failure.None?
    requires FileSpec(variant, st, path, documents).1.Some?
    ensures Extends(HostsSpec(variant, st.services, a).table, FileSpec(variant, st, path, documents).0.services)
  {
    match variant
    case Rdp => RdpNmap.EarlierHostsKept(st.services, a, b);
    case Ntp => NtpNmap.EarlierHostsKept(st.services, a, b);
  }

  /** It also keeps every record that the earlier ports of the host it
      fails in stored. */
  lemma FailedFileKeepsEarlierPorts(variant: Variant, st: ParserState, path: string, documents: map<string, Document>,
                                    a: seq<Host>, h: Host, address: string, pa: seq<Port>, pb: seq<Port>, b: seq<Host>)
    requires |FilenameTokens(path)| >= 2 && path in documents
    requires documents[path].hosts == a + [h] + b
    requires HostAddress(variant, h) == Some(address) && h.ports == pa + pb
    requires HostsSpec(variant, st.services, a).failure.None?
    requires PortsSpec(variant, HostsSpec(variant, st.services, a).table, address, pa).failure.None?
    requires FileSpec(variant, st, path, documents).1.Some?
    ensures Extends(PortsSpec(variant, HostsSpec(variant, st.services, a).table, address, pa).table,
                    FileSpec(variant, st, path, documents).0.services)
  {
    match variant
    case Rdp => RdpNmap.EarlierPortsKept(st.services, a, h, address, pa, pb, b);
    case Ntp => NtpNmap.EarlierPortsKept(st.services, a, h, pa, pb, b);
  }

  /** A batch keeps every record already stored (no file can remove or
      change one) and keeps the mapping well formed. */
  lemma {:induction false} BatchKeepsRecords(variant: Variant, st: ParserState, paths: seq<string>, documents: map<string, Document>)
    ensures Extends(st.services, BatchSpec(variant, st, paths, documents).services)
    ensures Valid(st.services) ==> Valid(BatchSpec(variant, st, paths, documents).services)
    decreases |paths|
  {
    if paths != [] {
      var init := paths[..|paths| - 1];
      BatchKeepsRecords(variant, st, init, documents);
      var mid := BatchSpec(variant, st, init, documents);
      FileKeepsRecords(variant, mid, paths[|paths| - 1], documents);
      ExtendsTransitive(st.services, mid.services, BatchSpec(variant, st, paths, documents).services);
    }
  }

  /** A failing file never stops the later ones: a batch is its first part
      followed by the rest, whatever happened in the first part. */
  lemma {:induction false} BatchAppend(variant: Variant, st: ParserState, ps: seq<string>, qs: seq<string>, documents: map<string, Document>)
    ensures BatchSpec(variant, st, ps + qs, documents) == BatchSpec(variant, BatchSpec(variant, st, ps, documents), qs, documents)
    decreases |qs|
  {
    if qs == [] {
      assert ps + qs == ps;
    } else {
      var qs' := qs[..|qs| - 1];
      BatchAppend(variant, st, ps, qs', documents);
      assert (ps + qs)[..|ps + qs| - 1] == ps + qs';
    }
  }

  /** An AbstractParser subclass instance. The variant stands for the
      concrete class. */
  class Parser {
    const variant: Variant
    const name: string
    const fileType: string
    var services: Table<Issue>
    var applicationProtocol: Option<string>
    var transportProtocol: Option<string>

    constructor(variant: Variant)
      ensures this.variant == variant && name == NmapName && fileType == XmlFileType
      ensures services == Table(map[], [])
      ensures applicationProtocol.None? && transportProtocol.None?
    {
      this.variant := variant;
      name := NmapName;
      fileType := XmlFileType;
      services := Table(map[], []);
      applicationProtocol := None;
      transportProtocol := None;
    }

    function State(): ParserState
      reads this
    {
      ParserState(ViewTable(services), applicationProtocol, transportProtocol)
    }

    method ParseFile(path: string, documents: map<string, Document>) returns (failure: Option<ParseError>)
      modifies this
      ensures (State(), failure) == FileSpec(variant, old(State()), path, documents)
    {
      var tokens := FilenameTokens(path);
      applicationProtocol := Some(tokens[0]);
      if |tokens| < 2 {
        return Some(TooFewFilenameTokens(Basename(path)));
      }
      transportProtocol := Some(tokens[1]);
      if path !in documents {
        return Some(Unreadable(path));
      }
      var u: Table<Issue>;
      match variant {
        case Rdp =>
          u, failure := RdpNmap.ParseDocument(services, documents[path]);
        case Ntp =>
          u, failure := NtpNmap.ParseDocument(services, documents[path]);
      }
      services := u;
    }

    method ParseFiles(files: map<string, seq<string>>, documents: map<string, Document>) returns (result: Table<Issue>)
      modifies this
      ensures State() == ParseFilesSpec(variant, fileType, old(State()), files, documents)
      ensures result == services
    {
      if fileType !in files {
        return services;
      }
      var paths := files[fileType];
      var k := 0;
      while k < |paths|
        invariant 0 <= k <= |paths|
        invariant State() == BatchSpec(variant, old(State()), paths[..k], documents)
      {
        ghost var before := State();
        var _ := ParseFile(paths[k], documents);
        assert paths[..k + 1][..k] == paths[..k] && paths[..k + 1][k] == paths[k];
        assert State() == FileSpec(variant, before, paths[k], documents).0;
        k := k + 1;
      }
      assert paths[..k] == paths;
      result := services;
    }
  }

  /** Without any file of the parser's type, `parse_files` leaves the
      whole state as it was. */
  lemma OtherFileTypeUntouched(variant: Variant, st: ParserState, files: map<string, seq<string>>, documents: map<string, Document>)
    requires XmlFileType !in files
    ensures ParseFilesSpec(variant, XmlFileType, st, files, documents) == st
  {
  }
}
