/** The NTP parser for Nmap XML reports (`analyzers/ntp/nmap.py`).

    For each host (its first `address` element) and each of its open
    ports not seen before, a new service record is stored under
    `address:port (protocol)` with the address, the port and the version
    taken from the `service` element (the transport protocol is not
    recorded). The `ntp-monlist` and `ntp-info` script results add a
    "Mode 7" or "Mode 6" amplification Issue and `misc` entries; any other
    NTP script is noted in `info` as not parsed.

    Besides a port without a state, which the RDP parser does not accept
    either, several steps here raise: a host without an address, a port
    without a service element, a version the version pattern does not
    match, an info element without text. The
    exception ends the file; the record being filled stays stored as far
    as it got. */
module NtpNmap {
  import opened Outcomes
  import opened Text
  import opened Issues
  import opened Records
  import opened Nmap

  const MonlistScript := "ntp-monlist"
  const InfoScript := "ntp-info"
  /** Script ids containing this are NTP results. */
  const ScriptFamily := "ntp"
  /** The `ntp-info` field that is left out of `misc`. */
  const SuppressedKey := "receive time stamp"

  const Mode7 := "Mode 7"
  const Mode6 := "Mode 6"

  function Mode7Values(): map<string, Value> {
    map["req_code" := Int(42), "amplification_factor" := Str("?")]
  }

  function Mode6Values(): map<string, Value> {
    map["opcode" := Int(2), "amplification_factor" := Str("?")]
  }

  function Mode7Finding(): Finding {
    Finding(Mode7, Mode7Values())
  }

  function Mode6Finding(): Finding {
    Finding(Mode6, Mode6Values())
  }

  // ---------------------------------------------------------------------
  // The version

  /** The pattern `v(?P<version>[^@]+)` can start at index `i`: a 'v'
      followed by at least one character other than '@'. */
  predicate VersionAt(v: string, i: int) {
    0 <= i && i + 1 < |v| && v[i] == 'v' && v[i + 1] != '@'
  }

  /** Where the greedy `[^@]+` starting at `j` stops: at the next '@' or at
      the end. */
  function RunEnd(v: string, j: nat): (e: nat)
    requires j <= |v|
    ensures j <= e <= |v|
    ensures forall k :: j <= k < e ==> v[k] != '@'
    ensures e == |v| || v[e] == '@'
    decreases |v| - j
  {
    if j == |v| || v[j] == '@' then j else RunEnd(v, j + 1)
  }

  /** `re.search` from index `i`: where the leftmost match starts. */
  function MatchIndex(v: string, i: nat): (r: Option<nat>)
    ensures r.Some? ==> i <= r.value && VersionAt(v, r.value)
    decreases |v| - i
  {
    if i + 1 >= |v| then None
    else if VersionAt(v, i) then Some(i)
    else MatchIndex(v, i + 1)
  }

  /** The `version` group of the leftmost match, if there is one. */
  function VersionSearch(v: string): Option<string> {
    match MatchIndex(v, 0)
    case None => None
    case Some(i) => Some(v[i + 1..RunEnd(v, i + 1)])
  }

  /** `_parse_version`: no attribute or an empty one gives no version; a
      match gives its group; no match raises (`m.group` on `None`). */
  function ParseVersion(version: Option<string>): Result<Option<string>, ParseError> {
    match version
    case None => Success(None)
    case Some(v) =>
      if v == "" then Success(None)
      else
        match VersionSearch(v)
        case None => Failure(NoVersionMatch(v))
        case Some(g) => Success(Some(g))
  }

  /** The search finds a match exactly when there is one, and what it
      finds is the leftmost one. */
  lemma {:induction false} MatchIndexLeftmost(v: string, from: nat)
    ensures MatchIndex(v, from).None? <==> forall i :: from <= i ==> !VersionAt(v, i)
    ensures MatchIndex(v, from).Some? ==>
      var i := MatchIndex(v, from).value;
      from <= i && VersionAt(v, i) && forall j :: from <= j < i ==> !VersionAt(v, j)
    decreases |v| - from
  {
    if from + 1 < |v| && !VersionAt(v, from) {
      MatchIndexLeftmost(v, from + 1);
    }
  }

  /** The group of a match at `i` runs to the next '@' or the end (as
      `RunEnd` states): it is non-empty and free of '@'. */
  lemma VersionGroup(v: string, i: int)
    requires VersionAt(v, i)
    ensures var g := v[i + 1..RunEnd(v, i + 1)];
      g != "" && '@' !in g
  {
  }

  /** The parsed version fails exactly when a non-empty version has no 'v'
      followed by a character other than '@', and is absent exactly when
      the attribute is absent or empty. */
  lemma ParseVersionOutcome(version: Option<string>)
    ensures ParseVersion(version).Failure? <==>
      version.Some? && version.value != "" && forall i :: 0 <= i ==> !VersionAt(version.value, i)
    ensures ParseVersion(version) == Success(None) <==> version.None? || version.value == ""
  {
    if version.Some? && version.value != "" {
      MatchIndexLeftmost(version.value, 0);
    }
  }

  /** A parsed version is the group of the leftmost 'v' that is followed
      by a character other than '@': the text up to the next '@' or the
      end, non-empty and free of '@'. */
  lemma ParseVersionGroup(version: Option<string>)
    requires ParseVersion(version).Success? && ParseVersion(version).value.Some?
    ensures var v := version.value;
      var g := ParseVersion(version).value.value;
      g != "" && '@' !in g
      && exists i :: (0 <= i && VersionAt(v, i)
        && (forall j :: 0 <= j < i ==> !VersionAt(v, j))
        && g == v[i + 1..RunEnd(v, i + 1)])
  {
    var v := version.value;
    MatchIndexLeftmost(v, 0);
    var i := MatchIndex(v, 0).value;
    VersionGroup(v, i);
  }

  /** The version string of the source's own comment. */
  lemma ParseVersionExample()
    ensures ParseVersion(Some("v4.2.8p15@1.3728-o")) == Success(Some("4.2.8p15"))
  {
    var v := "v4.2.8p15@1.3728-o";
    assert VersionAt(v, 0);
    var e := RunEnd(v, 1);
    assert v[9] == '@';
    assert forall k :: 1 <= k < 9 ==> v[k] != '@';
    assert e == 9;
    assert v[1..9] == "4.2.8p15";
  }

  // ---------------------------------------------------------------------
  // ntp-monlist

  /** `_parse_monlist`: the not-parsed marker, returned as a string. */
  function ParseMonlist(): string {
    NotParsed(MonlistScript)
  }

  /** `lst += s` for a list and a string: every character is appended as a
      one-character string. */
  function ExtendByChars(lst: seq<string>, s: string): (r: seq<string>)
    ensures |r| == |lst| + |s|
    ensures r[..|lst|] == lst
    ensures forall k :: 0 <= k < |s| ==> r[|lst| + k] == [s[k]]
  {
    lst + seq(|s|, k requires 0 <= k < |s| => [s[k]])
  }

  // ---------------------------------------------------------------------
  // ntp-info

  function InfoEntry(key: string, text: string): string {
    "`" + key + "=" + Strip(text) + "`"
  }

  /** `_parse_info`: one entry per element except the suppressed key; an
      element without text raises. */
  function InfoSpec(elems: seq<Elem>): Result<seq<string>, ParseError>
    decreases |elems|
  {
    if elems == [] then Success([])
    else
      var e := elems[0];
      if e.key == SuppressedKey then InfoSpec(elems[1..])
      else if e.text.None? then Failure(MissingElemText(e.key))
      else
        match InfoSpec(elems[1..])
        case Failure(err) => Failure(err)
        case Success(rest) => Success([InfoEntry(e.key, e.text.value)] + rest)
  }

  /** The elements that reach `misc`, in order. */
  function Kept(elems: seq<Elem>): seq<Elem>
    decreases |elems|
  {
    if elems == [] then []
    else if elems[0].key == SuppressedKey then Kept(elems[1..])
    else [elems[0]] + Kept(elems[1..])
  }

  /** The kept elements are those of another key, in order. */
  lemma {:induction false} KeptSpec(elems: seq<Elem>)
    ensures forall e :: e in Kept(elems) <==> e in elems && e.key != SuppressedKey
    ensures |Kept(elems)| <= |elems|
    decreases |elems|
  {
    if elems != [] {
      KeptSpec(elems[1..]);
      assert elems == [elems[0]] + elems[1..];
    }
  }

  /** `_parse_info` succeeds exactly when every element other than the
      suppressed one has text. */
  lemma {:induction false} InfoSucceeds(elems: seq<Elem>)
    ensures InfoSpec(elems).Success? <==> forall e :: e in Kept(elems) ==> e.text.Some?
    decreases |elems|
  {
    if elems != [] {
      InfoSucceeds(elems[1..]);
    }
  }

  /** Its entries are then those elements, in order, each as
      `key=stripped text`. */
  lemma {:induction false} InfoEntries(elems: seq<Elem>)
    requires InfoSpec(elems).Success?
    ensures |InfoSpec(elems).value| == |Kept(elems)|
    ensures forall k :: 0 <= k < |Kept(elems)| ==>
      Kept(elems)[k].text.Some?
      && InfoSpec(elems).value[k] == InfoEntry(Kept(elems)[k].key, Kept(elems)[k].text.value)
    decreases |elems|
  {
    if elems != [] {
      InfoEntries(elems[1..]);
      if elems[0].key != SuppressedKey {
        var kept := Kept(elems);
        var rest := Kept(elems[1..]);
        var m := InfoSpec(elems).value;
        var m' := InfoSpec(elems[1..]).value;
        assert kept == [elems[0]] + rest;
        assert m == [InfoEntry(elems[0].key, elems[0].text.value)] + m';
        forall k | 0 < k < |kept|
          ensures kept[k].text.Some? && m[k] == InfoEntry(kept[k].key, kept[k].text.value)
        {
          assert kept[k] == rest[k - 1] && m[k] == m'[k - 1];
        }
      }
    }
  }

  /** Otherwise it raises for the first element without text. */
  lemma {:induction false} InfoFailsAtFirst(elems: seq<Elem>)
    requires InfoSpec(elems).Failure?
    ensures exists k :: (0 <= k < |Kept(elems)| && Kept(elems)[k].text.None?
      && InfoSpec(elems).error == MissingElemText(Kept(elems)[k].key)
      && forall j :: 0 <= j < k ==> Kept(elems)[j].text.Some?)
    decreases |elems|
  {
    var kept := Kept(elems);
    var e := elems[0];
    if e.key == SuppressedKey {
      InfoFailsAtFirst(elems[1..]);
    } else if e.text.None? {
      assert kept[0] == e;
      assert InfoSpec(elems) == Failure(MissingElemText(e.key));
    } else {
      var rest := Kept(elems[1..]);
      assert kept == [e] + rest;
      assert InfoSpec(elems[1..]).Failure? && InfoSpec(elems).error == InfoSpec(elems[1..]).error;
      InfoFailsAtFirst(elems[1..]);
      var k :| 0 <= k < |rest| && rest[k].text.None?
        && InfoSpec(elems[1..]).error == MissingElemText(rest[k].key)
        && forall j :: 0 <= j < k ==> rest[j].text.Some?;
      assert kept[k + 1] == rest[k];
      forall j | 0 <= j < k + 1
        ensures kept[j].text.Some?
      {
        if j > 0 {
          assert kept[j] == rest[j - 1];
        }
      }
    }
  }

  /** The suppressed field never appears, whatever its text. */
  lemma InfoSkipsSuppressed(elems: seq<Elem>, text: Option<string>)
    ensures InfoSpec([Elem(SuppressedKey, text)] + elems) == InfoSpec(elems)
  {
  }

  /** `r` with `misc` in front of its entries. */
  function Prefixed(misc: seq<string>, r: Result<seq<string>, ParseError>): Result<seq<string>, ParseError> {
    match r
    case Failure(err) => Failure(err)
    case Success(rest) => Success(misc + rest)
  }

  lemma PrefixedTwice(a: seq<string>, b: seq<string>, r: Result<seq<string>, ParseError>)
    ensures Prefixed(a, Prefixed(b, r)) == Prefixed(a + b, r)
  {
    if r.Success? {
      assert a + (b + r.value) == (a + b) + r.value;
    }
  }

  method ParseInfo(elems: seq<Elem>) returns (r: Result<seq<string>, ParseError>)
    ensures r == InfoSpec(elems)
  {
    var misc: seq<string> := [];
    var k := 0;
    assert InfoSpec(elems).Success? ==> [] + InfoSpec(elems).value == InfoSpec(elems).value;
    while k < |elems|
      invariant 0 <= k <= |elems|
      invariant InfoSpec(elems) == Prefixed(misc, InfoSpec(elems[k..]))
    {
      assert elems[k..][0] == elems[k] && elems[k..][1..] == elems[k + 1..];
      var e := elems[k];
      if e.key != SuppressedKey {
        if e.text.None? {
          assert InfoSpec(elems[k..]) == Failure(MissingElemText(e.key));
          return Failure(MissingElemText(e.key));
        }
        var entry := InfoEntry(e.key, e.text.value);
        assert InfoSpec(elems[k..]) == Prefixed([entry], InfoSpec(elems[k + 1..]));
        PrefixedTwice(misc, [entry], InfoSpec(elems[k + 1..]));
        misc := misc + [entry];
      } else {
        assert InfoSpec(elems[k..]) == InfoSpec(elems[k + 1..]);
      }
      k := k + 1;
    }
    assert elems[k..] == [];
    assert misc + [] == misc;
    return Success(misc);
  }

  // ---------------------------------------------------------------------
  // Script dispatch and ports

  /** A record after some script results, and the error that stopped
      them, if any. */
  datatype Step = Step(record: Record<Finding>, failure: Option<ParseError>)

  function ScriptSpec(script: Script, r: Record<Finding>): Step {
    if script.id == MonlistScript then
      Step(r.(issues := r.issues + [Mode7Finding()], misc := ExtendByChars(r.misc, ParseMonlist())), None)
    else if script.id == InfoScript then
      var r' := r.(issues := r.issues + [Mode6Finding()]);
      match InfoSpec(script.elems)
      case Failure(err) => Step(r', Some(err))
      case Success(m) => Step(r'.(misc := r'.misc + m), None)
    else if Contains(script.id, ScriptFamily) then Step(r.(info := r.info + [NotParsed(script.id)]), None)
    else Step(r, None)
  }

  function ScriptsSpec(scripts: seq<Script>, r: Record<Finding>): Step
    decreases |scripts|
  {
    if scripts == [] then Step(r, None)
    else
      var s := ScriptSpec(scripts[0], r);
      if s.failure.Some? then s else ScriptsSpec(scripts[1..], s.record)
  }

  /** `ntp-monlist` adds exactly one Issue, "Mode 7" with `req_code=42` and
      `amplification_factor="?"`. Its not-parsed marker reaches `misc` one
      character per entry: `misc` grows by as many entries as the marker
      has characters, each a single character, none of them the marker. */
  lemma MonlistScriptSpec(script: Script, r: Record<Finding>)
    requires script.id == MonlistScript
    ensures var u := ScriptSpec(script, r);
      var marker := "Nmap script scan result not parsed: 'ntp-monlist'";
      u.failure.None?
      && u.record == r.(issues := r.issues + [Finding("Mode 7", map["req_code" := Int(42), "amplification_factor" := Str("?")])],
                       misc := u.record.misc)
      && |u.record.misc| == |r.misc| + |marker| && |marker| > 1
      && u.record.misc[..|r.misc|] == r.misc
      && forall k :: |r.misc| <= k < |u.record.misc| ==>
           u.record.misc[k] == [marker[k - |r.misc|]] && u.record.misc[k] != marker
  {
    var marker := "Nmap script scan result not parsed: 'ntp-monlist'";
    assert ParseMonlist() == marker;
    var m := ScriptSpec(script, r).record.misc;
    forall k | |r.misc| <= k < |m|
      ensures m[k] == [marker[k - |r.misc|]] && m[k] != marker
    {
      assert m[|r.misc| + (k - |r.misc|)] == [marker[k - |r.misc|]];
    }
  }

  /** `ntp-info` adds exactly one Issue, "Mode 6" with `opcode=2` and
      `amplification_factor="?"`, then the entries of `_parse_info`; when
      that raises, the Issue is already there and `misc` is unchanged. */
  lemma InfoScriptSpec(script: Script, r: Record<Finding>)
    requires script.id == InfoScript
    ensures var u := ScriptSpec(script, r);
      var r' := r.(issues := r.issues + [Finding("Mode 6", map["opcode" := Int(2), "amplification_factor" := Str("?")])]);
      match InfoSpec(script.elems)
      case Success(m) => u == Step(r'.(misc := r.misc + m), None)
      case Failure(err) => u == Step(r', Some(err))
  {
  }

  /** Any other script id adds exactly one `info` entry if it mentions
      "ntp", and nothing otherwise; it never adds an Issue. */
  lemma OtherScript(script: Script, r: Record<Finding>)
    requires script.id != MonlistScript && script.id != InfoScript
    ensures ScriptSpec(script, r).failure.None?
    ensures ScriptSpec(script, r).record.issues == r.issues
    ensures Contains(script.id, ScriptFamily) ==> ScriptSpec(script, r).record == r.(info := r.info + [NotParsed(script.id)])
    ensures !Contains(script.id, ScriptFamily) ==> ScriptSpec(script, r).record == r
  {
  }

  /** Scripts only append: the location and version stay, and the issues,
      `misc` and `info` lists of the record keep what they held. */
  lemma {:induction false} ScriptsAppendOnly(scripts: seq<Script>, r: Record<Finding>)
    ensures var u := ScriptsSpec(scripts, r).record;
      u.address == r.address && u.port == r.port && u.transportProtocol == r.transportProtocol
      && u.version == r.version
      && r.issues <= u.issues && r.misc <= u.misc && r.info <= u.info
    decreases |scripts|
  {
    if scripts != [] {
      var s := ScriptSpec(scripts[0], r);
      if s.failure.None? {
        ScriptsAppendOnly(scripts[1..], s.record);
      }
    }
  }

  /** The scripts that raise an Issue. */
  function KnownScripts(scripts: seq<Script>): nat
    decreases |scripts|
  {
    if scripts == [] then 0
    else (if scripts[0].id in {MonlistScript, InfoScript} then 1 else 0) + KnownScripts(scripts[1..])
  }

  /** Every Issue the scripts add is the Mode 7 or the Mode 6 finding, and
      when they all succeed there is one per `ntp-monlist` or `ntp-info`
      result. */
  lemma {:induction false} ScriptsIssues(scripts: seq<Script>, r: Record<Finding>)
    ensures var u := ScriptsSpec(scripts, r).record;
      |r.issues| <= |u.issues|
      && (forall k :: |r.issues| <= k < |u.issues| ==> u.issues[k] in {Mode7Finding(), Mode6Finding()})
      && (ScriptsSpec(scripts, r).failure.None? ==> |u.issues| == |r.issues| + KnownScripts(scripts))
    decreases |scripts|
  {
    if scripts != [] {
      var s := ScriptSpec(scripts[0], r);
      if s.failure.None? {
        ScriptsIssues(scripts[1..], s.record);
        ScriptsAppendOnly(scripts[1..], s.record);
      }
    }
  }

  /** A port whose scripts are all unrelated to NTP keeps its record as it
      was. */
  lemma {:induction false} ScriptsWithoutNtp(scripts: seq<Script>, r: Record<Finding>)
    requires forall k :: 0 <= k < |scripts| ==> !Contains(scripts[k].id, ScriptFamily)
    ensures ScriptsSpec(scripts, r) == Step(r, None)
    decreases |scripts|
  {
    if scripts != [] {
      assert OccursAt(MonlistScript, ScriptFamily, 0);
      assert OccursAt(InfoScript, ScriptFamily, 0);
      ScriptsWithoutNtp(scripts[1..], r);
    }
  }

  /** The record stored for a new open port, before its version and
      scripts. */
  function NewRecord<I>(address: string, port: Port): Record<I> {
    Schema<I>().(address := Some(address), port := Some(port.portid))
  }

  /** What the record of a new open port holds once it has been filled
      in, and the error that stopped the filling, if any: a missing
      service element or a failed version match leaves it as it was
      made. */
  function PortRecord(address: string, port: Port): Step {
    var empty := NewRecord<Finding>(address, port);
    match port.service
    case None => Step(empty, Some(MissingServiceNode))
    case Some(node) =>
      match ParseVersion(node.version)
      case Failure(err) => Step(empty, Some(err))
      case Success(version) => ScriptsSpec(port.scripts, empty.(version := version))
  }

  /** One port of a host with the given address. The record is stored
      before its version is read, so it stays (with what it holds) when
      reading the rest fails. */
  function PortSpec(t: Table<Finding>, address: string, port: Port): Parsed {
    match port.state
    case None => Parsed(t, Some(MissingStateNode))
    case Some(state) =>
      if state != OpenState then Parsed(t, None)
      else
        var id := Identifier(address, port.portid, port.protocol);
        if id in t.records then Parsed(t, None)
        else
          var s := PortRecord(address, port);
          Parsed(Assign(t, id, s.record), s.failure)
  }

  function PortsFrom(t: Table<Finding>, address: string, ports: seq<Port>): Parsed
    decreases |ports|
  {
    if ports == [] then Parsed(t, None)
    else
      var p := PortSpec(t, address, ports[0]);
      if p.failure.Some? then p else PortsFrom(p.table, address, ports[1..])
  }

  /** One host: its first address element, which must exist. */
  function HostSpec(t: Table<Finding>, host: Host): Parsed {
    if host.addresses == [] then Parsed(t, Some(MissingAddressNode))
    else PortsFrom(t, host.addresses[0].addr, host.ports)
  }

  function HostsFrom(t: Table<Finding>, hosts: seq<Host>): Parsed
    decreases |hosts|
  {
    if hosts == [] then Parsed(t, None)
    else
      var p := HostSpec(t, hosts[0]);
      if p.failure.Some? then p else HostsFrom(p.table, hosts[1..])
  }

  function DocumentSpec(t: Table<Finding>, doc: Document): Parsed {
    HostsFrom(t, doc.hosts)
  }

  method ParseScripts(scripts: seq<Script>, service: Service) returns (s: Service, failure: Option<ParseError>)
    ensures Step(View(s), failure) == ScriptsSpec(scripts, View(service))
  {
    s := service;
    var j := 0;
    while j < |scripts|
      invariant 0 <= j <= |scripts|
      invariant ScriptsSpec(scripts[j..], View(s)) == ScriptsSpec(scripts, View(service))
    {
      assert scripts[j..][0] == scripts[j] && scripts[j..][1..] == scripts[j + 1..];
      var script := scripts[j];
      if script.id == MonlistScript {
        var issue := new Issue(Mode7, Mode7Values());
        FindingsAppend(s.issues, issue);
        s := s.(issues := s.issues + [issue]);
        s := s.(misc := ExtendByChars(s.misc, ParseMonlist()));
      } else if script.id == InfoScript {
        var issue := new Issue(Mode6, Mode6Values());
        FindingsAppend(s.issues, issue);
        s := s.(issues := s.issues + [issue]);
        var m := ParseInfo(script.elems);
        if m.Failure? {
          return s, Some(m.error);
        }
        s := s.(misc := s.misc + m.value);
      } else if Contains(script.id, ScriptFamily) {
        s := s.(info := s.info + [NotParsed(script.id)]);
      }
      j := j + 1;
    }
    failure := None;
  }

  method ParsePort(table: Table<Issue>, address: string, port: Port) returns (u: Table<Issue>, failure: Option<ParseError>)
    ensures Parsed(ViewTable(u), failure) == PortSpec(ViewTable(table), address, port)
  {
    if port.state.None? {
      return table, Some(MissingStateNode);
    }
    if port.state.value != OpenState {
      return table, None;
    }
    var id := Identifier(address, port.portid, port.protocol);
    if id in table.records {
      return table, None;
    }
    var service: Service := NewRecord(address, port);
    u := Assign(table, id, service);
    ViewAssign(table, id, service);
    if port.service.None? {
      return u, Some(MissingServiceNode);
    }
    var version := ParseVersion(port.service.value.version);
    if version.Failure? {
      return u, Some(version.error);
    }
    service := service.(version := version.value);
    service, failure := ParseScripts(port.scripts, service);
    // The dictionary holds the very record that was filled in.
    u := Assign(u, id, service);
    assert u == Assign(table, id, service);
    ViewAssign(table, id, service);
  }

  method ParseHost(table: Table<Issue>, host: Host) returns (u: Table<Issue>, failure: Option<ParseError>)
    ensures Parsed(ViewTable(u), failure) == HostSpec(ViewTable(table), host)
  {
    if host.addresses == [] {
      return table, Some(MissingAddressNode);
    }
    var address := host.addresses[0].addr;
    u := table;
    var j := 0;
    while j < |host.ports|
      invariant 0 <= j <= |host.ports|
      invariant PortsFrom(ViewTable(u), address, host.ports[j..]) == PortsFrom(ViewTable(table), address, host.ports)
    {
      assert host.ports[j..][0] == host.ports[j] && host.ports[j..][1..] == host.ports[j + 1..];
      u, failure := ParsePort(u, address, host.ports[j]);
      if failure.Some? {
        return;
      }
      j := j + 1;
    }
    failure := None;
  }

  /** `Parser.parse_file` from the parsed tree on. */
  method ParseDocument(table: Table<Issue>, doc: Document) returns (u: Table<Issue>, failure: Option<ParseError>)
    ensures Parsed(ViewTable(u), failure) == DocumentSpec(ViewTable(table), doc)
  {
    u := table;
    var i := 0;
    while i < |doc.hosts|
      invariant 0 <= i <= |doc.hosts|
      invariant HostsFrom(ViewTable(u), doc.hosts[i..]) == HostsFrom(ViewTable(table), doc.hosts)
    {
      assert doc.hosts[i..][0] == doc.hosts[i] && doc.hosts[i..][1..] == doc.hosts[i + 1..];
      u, failure := ParseHost(u, doc.hosts[i]);
      if failure.Some? {
        return;
      }
      i := i + 1;
    }
    failure := None;
  }

  // ---------------------------------------------------------------------
  // Properties of a whole document

  /** A record made for an open port of one of the hosts: stored under
      that port's identifier with the host's first address, the port
      number and no transport protocol. */
  ghost predicate FromOpenPort(hosts: seq<Host>, id: string, r: Record<Finding>) {
    exists h, p :: h in hosts && p in h.ports
      && h.addresses != []
      && p.state == Some(OpenState)
      && id == Identifier(h.addresses[0].addr, p.portid, p.protocol)
      && r.address == Some(h.addresses[0].addr)
      && r.port == Some(p.portid)
      && r.transportProtocol.None?
  }

  ghost predicate NewFromOpenPorts(t: Table<Finding>, u: Table<Finding>, hosts: seq<Host>) {
    forall id :: id in u.records && id !in t.records ==> FromOpenPort(hosts, id, u.records[id])
  }

  /** New records over new records are new records. */
  lemma NewFromTransitive(t: Table<Finding>, u: Table<Finding>, v: Table<Finding>, hosts: seq<Host>)
    requires Extends(u, v)
    requires NewFromOpenPorts(t, u, hosts) && NewFromOpenPorts(u, v, hosts)
    ensures NewFromOpenPorts(t, v, hosts)
  {
  }

  /** One port of the host keeps what is stored, also when it raises, and
      adds at most the record of that port. */
  lemma PortSpecKeepsAndAdds(t: Table<Finding>, host: Host, port: Port)
    requires host.addresses != []
    requires port in host.ports
    ensures Extends(t, PortSpec(t, host.addresses[0].addr, port).table)
    ensures Valid(t) ==> Valid(PortSpec(t, host.addresses[0].addr, port).table)
    ensures NewFromOpenPorts(t, PortSpec(t, host.addresses[0].addr, port).table, [host])
  {
    var address := host.addresses[0].addr;
    var p := PortSpec(t, address, port);
    if p.table != t {
      var id := Identifier(address, port.portid, port.protocol);
      var empty := NewRecord<Finding>(address, port);
      if port.service.Some? {
        var version := ParseVersion(port.service.value.version);
        if version.Success? {
          ScriptsAppendOnly(port.scripts, empty.(version := version.value));
        }
      }
      assert FromOpenPort([host], id, p.table.records[id]);
    }
  }

  lemma {:induction false} PortsFromSpec(t: Table<Finding>, host: Host, ports: seq<Port>)
    requires host.addresses != []
    requires forall p :: p in ports ==> p in host.ports
    ensures Extends(t, PortsFrom(t, host.addresses[0].addr, ports).table)
    ensures Valid(t) ==> Valid(PortsFrom(t, host.addresses[0].addr, ports).table)
    ensures NewFromOpenPorts(t, PortsFrom(t, host.addresses[0].addr, ports).table, [host])
    decreases |ports|
  {
    var address := host.addresses[0].addr;
    if ports != [] {
      var p := PortSpec(t, address, ports[0]);
      PortSpecKeepsAndAdds(t, host, ports[0]);
      if p.failure.None? {
        assert forall q :: q in ports[1..] ==> q in ports;
        PortsFromSpec(p.table, host, ports[1..]);
        var u := PortsFrom(t, address, ports).table;
        ExtendsTransitive(t, p.table, u);
        NewFromTransitive(t, p.table, u, [host]);
      }
    }
  }

  lemma {:induction false} HostsFromSpec(t: Table<Finding>, hosts: seq<Host>)
    ensures Extends(t, HostsFrom(t, hosts).table)
    ensures Valid(t) ==> Valid(HostsFrom(t, hosts).table)
    ensures NewFromOpenPorts(t, HostsFrom(t, hosts).table, hosts)
    decreases |hosts|
  {
    if hosts != [] {
      var h := hosts[0];
      var p := HostSpec(t, h);
      if h.addresses != [] {
        PortsFromSpec(t, h, h.ports);
      }
      assert NewFromOpenPorts(t, p.table, hosts);
      if p.failure.None? {
        HostsFromSpec(p.table, hosts[1..]);
        var u := HostsFrom(t, hosts).table;
        ExtendsTransitive(t, p.table, u);
        assert forall g :: g in hosts[1..] ==> g in hosts;
        forall id | id in u.records && id !in t.records
          ensures FromOpenPort(hosts, id, u.records[id])
        {
          if id in p.table.records {
            assert u.records[id] == p.table.records[id];
          }
        }
      }
    }
  }

  /** First-seen wins and only open ports count: parsing a document keeps
      every record already stored, unchanged and in place (also when it
      raises part-way), and every record it adds was made for an open port
      under that port's identifier, with the host's first address and the
      port number, and without a transport protocol. */
  lemma DocumentSpecKeepsAndAdds(t: Table<Finding>, doc: Document)
    ensures Extends(t, DocumentSpec(t, doc).table)
    ensures Valid(t) ==> Valid(DocumentSpec(t, doc).table)
    ensures NewFromOpenPorts(t, DocumentSpec(t, doc).table, doc.hosts)
    ensures DocumentSpec(t, doc).failure.None? ==>
      (forall h :: h in doc.hosts ==> h.addresses != [])
      && StoresOpenPorts(DocumentSpec(t, doc).table, doc.hosts)
  {
    HostsFromSpec(t, doc.hosts);
    if DocumentSpec(t, doc).failure.None? {
      HostsFromStores(t, doc.hosts);
    }
  }

  /** A new open port whose service element is missing still leaves its
      record stored, holding the address and the port. */
  lemma MissingServiceKeepsRecord(t: Table<Finding>, address: string, port: Port)
    requires port.state == Some(OpenState) && port.service.None?
    requires Identifier(address, port.portid, port.protocol) !in t.records
    ensures var p := PortSpec(t, address, port);
      p.failure == Some(MissingServiceNode)
      && p.table.records[Identifier(address, port.portid, port.protocol)] == NewRecord(address, port)
  {
  }

  // ---------------------------------------------------------------------
  // Ports and hosts in sequence

  /** A run of ports that does not fail is a first part followed by the
      rest. */
  lemma {:induction false} PortsFromAppend(t: Table<Finding>, address: string, a: seq<Port>, b: seq<Port>)
    requires PortsFrom(t, address, a).failure.None?
    ensures PortsFrom(t, address, a + b) == PortsFrom(PortsFrom(t, address, a).table, address, b)
    decreases |a|
  {
    if a == [] {
      assert a + b == b;
    } else {
      assert (a + b)[0] == a[0] && (a + b)[1..] == a[1..] + b;
      PortsFromAppend(PortSpec(t, address, a[0]).table, address, a[1..], b);
    }
  }

  /** The same for hosts. */
  lemma {:induction false} HostsFromAppend(t: Table<Finding>, a: seq<Host>, b: seq<Host>)
    requires HostsFrom(t, a).failure.None?
    ensures HostsFrom(t, a + b) == HostsFrom(HostsFrom(t, a).table, b)
    decreases |a|
  {
    if a == [] {
      assert a + b == b;
    } else {
      assert (a + b)[0] == a[0] && (a + b)[1..] == a[1..] + b;
      HostsFromAppend(HostSpec(t, a[0]).table, a[1..], b);
    }
  }

  /** What the hosts before a point stored stays, whatever the later
      hosts do, an exception included. */
  lemma EarlierHostsKept(t: Table<Finding>, a: seq<Host>, b: seq<Host>)
    requires HostsFrom(t, a).failure.None?
    ensures Extends(HostsFrom(t, a).table, HostsFrom(t, a + b).table)
  {
    HostsFromAppend(t, a, b);
    HostsFromSpec(HostsFrom(t, a).table, b);
  }

  /** What the earlier hosts and the earlier ports of the current host
      stored stays, whatever the later ports and hosts do, an exception
      included. */
  lemma EarlierPortsKept(t: Table<Finding>, a: seq<Host>, h: Host,
                         pa: seq<Port>, pb: seq<Port>, b: seq<Host>)
    requires h.addresses != [] && h.ports == pa + pb
    requires HostsFrom(t, a).failure.None?
    requires PortsFrom(HostsFrom(t, a).table, h.addresses[0].addr, pa).failure.None?
    ensures Extends(HostsFrom(t, a).table, HostsFrom(t, a + [h] + b).table)
    ensures Extends(PortsFrom(HostsFrom(t, a).table, h.addresses[0].addr, pa).table, HostsFrom(t, a + [h] + b).table)
  {
    var address := h.addresses[0].addr;
    var t1 := HostsFrom(t, a).table;
    var t2 := PortsFrom(t1, address, pa).table;
    PortsFromAppend(t1, address, pa, pb);
    assert HostSpec(t1, h) == PortsFrom(t2, address, pb);
    PortsFromSpec(t2, h, pb);
    PortsFromSpec(t1, h, pa);
    var hs := HostSpec(t1, h);
    HostsFromAppend(t, a, [h] + b);
    assert a + [h] + b == a + ([h] + b);
    var u := HostsFrom(t, a + [h] + b).table;
    if hs.failure.None? {
      assert ([h] + b)[1..] == b;
      HostsFromSpec(hs.table, b);
      ExtendsTransitive(t2, hs.table, u);
    }
    ExtendsTransitive(t1, t2, u);
  }

  /** Every open port of every host with an address element has its
      identifier among the keys. */
  ghost predicate StoresOpenPorts(u: Table<Finding>, hosts: seq<Host>) {
    forall h, p :: h in hosts && p in h.ports && h.addresses != [] && p.state == Some(OpenState) ==>
      Identifier(h.addresses[0].addr, p.portid, p.protocol) in u.records
  }

  lemma {:induction false} PortsFromStores(t: Table<Finding>, host: Host, ports: seq<Port>)
    requires host.addresses != []
    requires forall p :: p in ports ==> p in host.ports
    requires PortsFrom(t, host.addresses[0].addr, ports).failure.None?
    ensures forall p :: p in ports && p.state == Some(OpenState) ==>
      Identifier(host.addresses[0].addr, p.portid, p.protocol) in PortsFrom(t, host.addresses[0].addr, ports).table.records
    decreases |ports|
  {
    var address := host.addresses[0].addr;
    if ports != [] {
      var p := PortSpec(t, address, ports[0]);
      assert forall q :: q in ports[1..] ==> q in ports;
      PortsFromStores(p.table, host, ports[1..]);
      PortsFromSpec(p.table, host, ports[1..]);
      assert forall q :: q in ports ==> q == ports[0] || q in ports[1..];
    }
  }

  lemma {:induction false} HostsFromStores(t: Table<Finding>, hosts: seq<Host>)
    requires HostsFrom(t, hosts).failure.None?
    ensures forall h :: h in hosts ==> h.addresses != []
    ensures StoresOpenPorts(HostsFrom(t, hosts).table, hosts)
    decreases |hosts|
  {
    if hosts != [] {
      var h := hosts[0];
      var p := HostSpec(t, h);
      HostsFromStores(p.table, hosts[1..]);
      HostsFromSpec(p.table, hosts[1..]);
      PortsFromStores(t, h, h.ports);
      assert forall g :: g in hosts ==> g == h || g in hosts[1..];
    }
  }

  /** The first open port with an identifier finds it not yet stored. */
  lemma NotStoredBefore(t: Table<Finding>, a: seq<Host>, h: Host, pa: seq<Port>, id: string)
    requires h.addresses != [] && id !in t.records
    requires forall g, q :: g in a && q in g.ports && g.addresses != [] && q.state == Some(OpenState) ==>
      Identifier(g.addresses[0].addr, q.portid, q.protocol) != id
    requires forall q :: q in pa && q.state == Some(OpenState) ==>
      Identifier(h.addresses[0].addr, q.portid, q.protocol) != id
    requires HostsFrom(t, a).failure.None?
    ensures id !in PortsFrom(HostsFrom(t, a).table, h.addresses[0].addr, pa).table.records
  {
    var t1 := HostsFrom(t, a).table;
    HostsFromSpec(t, a);
    assert id !in t1.records;
    PortsFromSpec(t1, h.(ports := pa), pa);
  }

  /** A port that raises ends the document with the table it leaves. */
  lemma RaisingPortEnds(t: Table<Finding>, a: seq<Host>, h: Host, pa: seq<Port>, p: Port, pb: seq<Port>, b: seq<Host>)
    requires h.addresses != [] && h.ports == pa + [p] + pb
    requires HostsFrom(t, a).failure.None?
    requires PortsFrom(HostsFrom(t, a).table, h.addresses[0].addr, pa).failure.None?
    requires PortSpec(PortsFrom(HostsFrom(t, a).table, h.addresses[0].addr, pa).table, h.addresses[0].addr, p).failure.Some?
    ensures HostsFrom(t, a + [h] + b) == PortSpec(PortsFrom(HostsFrom(t, a).table, h.addresses[0].addr, pa).table, h.addresses[0].addr, p)
  {
    var address := h.addresses[0].addr;
    var t1 := HostsFrom(t, a).table;
    var s := PortSpec(PortsFrom(t1, address, pa).table, address, p);
    assert ([p] + pb)[0] == p;
    assert PortsFrom(PortsFrom(t1, address, pa).table, address, [p] + pb) == s;
    PortsFromAppend(t1, address, pa, [p] + pb);
    assert h.ports == pa + ([p] + pb);
    assert HostSpec(t1, h) == s;
    assert ([h] + b)[0] == h;
    assert HostsFrom(t1, [h] + b) == s;
    HostsFromAppend(t, a, [h] + b);
    assert a + [h] + b == a + ([h] + b);
  }

  /** First-seen wins within a document: the first open port with an
      identifier not stored before stores the record it fills in
      (`PortRecord`), and no later port or host changes that record,
      whether the parse goes on to raise or not. */
  lemma FirstSeenWins(t: Table<Finding>, a: seq<Host>, h: Host,
                      pa: seq<Port>, p: Port, pb: seq<Port>, b: seq<Host>)
    requires h.addresses != [] && h.ports == pa + [p] + pb
    requires p.state == Some(OpenState)
    requires Identifier(h.addresses[0].addr, p.portid, p.protocol) !in t.records
    requires forall g, q :: g in a && q in g.ports && g.addresses != [] && q.state == Some(OpenState) ==>
      Identifier(g.addresses[0].addr, q.portid, q.protocol) != Identifier(h.addresses[0].addr, p.portid, p.protocol)
    requires forall q :: q in pa && q.state == Some(OpenState) ==>
      Identifier(h.addresses[0].addr, q.portid, q.protocol) != Identifier(h.addresses[0].addr, p.portid, p.protocol)
    requires HostsFrom(t, a).failure.None?
    requires PortsFrom(HostsFrom(t, a).table, h.addresses[0].addr, pa).failure.None?
    ensures var u := DocumentSpec(t, Document(a + [h] + b)).table;
      var id := Identifier(h.addresses[0].addr, p.portid, p.protocol);
      id in u.records && u.records[id] == PortRecord(h.addresses[0].addr, p).record
  {
    var address := h.addresses[0].addr;
    var id := Identifier(address, p.portid, p.protocol);
    NotStoredBefore(t, a, h, pa, id);
    var t2 := PortsFrom(HostsFrom(t, a).table, address, pa).table;
    var s := PortSpec(t2, address, p);
    assert s.table.records[id] == PortRecord(address, p).record;
    if s.failure.None? {
      PortsFromAppend(HostsFrom(t, a).table, address, pa, [p]);
      EarlierPortsKept(t, a, h, pa + [p], pb, b);
    } else {
      RaisingPortEnds(t, a, h, pa, p, pb, b);
    }
  }

}
