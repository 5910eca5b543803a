/** The RDP parser for Nmap XML reports (`analyzers/rdp/nmap.py`).

    For each host with an IPv4 or IPv6 address and each of its open ports
    not seen before, a new service record is stored under
    `address:port (protocol)` and filled from the port's script results:
    `rdp-enum-encryption` gives the security protocols, the encryption
    level and NLA; `rdp-ntlm-info` gives one `misc` entry per disclosed
    field and an "information disclosure" Issue for two of them; any other
    RDP script is noted in `info` as not parsed.

    The pure functions below specify each step on records whose Issues are
    given by their findings; the methods perform the steps on the stored
    records and are proved against them. */
module RdpNmap {
  import opened Outcomes
  import opened Text
  import opened Issues
  import opened Records
  import opened Nmap

  const EnumEncryptionScript := "rdp-enum-encryption"
  const NtlmInfoScript := "rdp-ntlm-info"
  /** Script ids containing this are RDP results. */
  const ScriptFamily := "rdp"

  /** `patterns_PROTOCOL`, in its iteration order. */
  const ProtocolPatterns: seq<(string, string)> := [
    ("PROTOCOL_RDP", "Native RDP: SUCCESS"),
    ("PROTOCOL_SSL", "SSL: SUCCESS"),
    ("PROTOCOL_HYBRID", "CredSSP (NLA): SUCCESS"),
    ("PROTOCOL_RDSTLS", "RDSTLS: SUCCESS"),
    ("PROTOCOL_HYBRID_EX", "CredSSP with Early User Auth: SUCCESS")
  ]

  /** `ENCRYPTION_LEVELS` */
  const EncryptionLevels: map<string, string> := map[
    "Low" := "ENCRYPTION_LEVEL_LOW",
    "Client Compatible" := "ENCRYPTION_LEVEL_CLIENT",
    "High" := "ENCRYPTION_LEVEL_HIGH",
    "FIPS Compliant" := "ENCRYPTION_LEVEL_FIPS"
  ]

  /** The alternatives of `regex_ENCRYPTION_LEVEL`, in the regex's order. */
  const LevelLabels: seq<string> := ["Low", "Client Compatible", "High", "FIPS Compliant"]
  const LevelPrefix := "RDP Encryption level: "
  const NoEncryptionLevel := "ENCRYPTION_LEVEL_NONE"
  const NlaPattern := "CredSSP (NLA): SUCCESS"

  /** The NTLM fields whose disclosure raises an Issue. */
  const DisclosedKeys: set<string> := {"DNS_Computer_Name", "Product_Version"}
  const DisclosureIssue := "information disclosure"

  // ---------------------------------------------------------------------
  // The host address

  predicate IsIp(a: Address) {
    a.addrtype == "ipv4" || a.addrtype == "ipv6"
  }

  /** The `addr` of the first IPv4 or IPv6 address element, if any. */
  function FirstIpAddress(addresses: seq<Address>): (r: Option<string>)
    ensures r.None? <==> forall k :: 0 <= k < |addresses| ==> !IsIp(addresses[k])
    ensures r.Some? ==> exists k :: (0 <= k < |addresses| && IsIp(addresses[k])
      && addresses[k].addr == r.value
      && (forall j :: 0 <= j < k ==> !IsIp(addresses[j])))
    decreases |addresses|
  {
    if addresses == [] then None
    else if IsIp(addresses[0]) then Some(addresses[0].addr)
    else
      var r := FirstIpAddress(addresses[1..]);
      assert forall k :: 0 < k < |addresses| ==> addresses[k] == addresses[1..][k - 1];
      r
  }

  /** The address loop of `parse_file`, which stops at the first match. */
  method SelectAddress(addresses: seq<Address>) returns (address: Option<string>)
    ensures address == FirstIpAddress(addresses)
  {
    var k := 0;
    while k < |addresses|
      invariant 0 <= k <= |addresses|
      invariant FirstIpAddress(addresses[k..]) == FirstIpAddress(addresses)
    {
      assert addresses[k..][0] == addresses[k] && addresses[k..][1..] == addresses[k + 1..];
      if IsIp(addresses[k]) {
        return Some(addresses[k].addr);
      }
      k := k + 1;
    }
    return None;
  }

  // ---------------------------------------------------------------------
  // rdp-enum-encryption

  /** The tags whose pattern occurs in the output, in the patterns' order. */
  function MatchingTags(patterns: seq<(string, string)>, output: string): seq<string>
    decreases |patterns|
  {
    if patterns == [] then []
    else
      var last := patterns[|patterns| - 1];
      MatchingTags(patterns[..|patterns| - 1], output) + (if Contains(output, last.1) then [last.0] else [])
  }

  /** A tag is reported exactly when one of its patterns occurs. */
  lemma {:induction false} MatchingTagsMembership(patterns: seq<(string, string)>, output: string, tag: string)
    ensures tag in MatchingTags(patterns, output) <==>
      exists k :: 0 <= k < |patterns| && patterns[k].0 == tag && Contains(output, patterns[k].1)
    decreases |patterns|
  {
    if patterns != [] {
      var init := patterns[..|patterns| - 1];
      MatchingTagsMembership(init, output, tag);
      assert forall k :: 0 <= k < |init| ==> init[k] == patterns[k];
    }
  }

  function ProtocolTags(output: string): seq<string> {
    MatchingTags(ProtocolPatterns, output)
  }

  /** One tag per pattern found, always in the order RDP, SSL, HYBRID,
      RDSTLS, HYBRID_EX. */
  lemma ProtocolTagsInOrder(output: string)
    ensures ProtocolTags(output) ==
      (if Contains(output, "Native RDP: SUCCESS") then ["PROTOCOL_RDP"] else [])
      + (if Contains(output, "SSL: SUCCESS") then ["PROTOCOL_SSL"] else [])
      + (if Contains(output, "CredSSP (NLA): SUCCESS") then ["PROTOCOL_HYBRID"] else [])
      + (if Contains(output, "RDSTLS: SUCCESS") then ["PROTOCOL_RDSTLS"] else [])
      + (if Contains(output, "CredSSP with Early User Auth: SUCCESS") then ["PROTOCOL_HYBRID_EX"] else [])
  {
    var ps := ProtocolPatterns;
    assert ps[..1][..0] == [];
    assert ps[..2][..1] == ps[..1];
    assert ps[..3][..2] == ps[..2];
    assert ps[..4][..3] == ps[..3];
    assert ps[..5][..4] == ps[..4];
    assert ps[..5] == ps;
    var t := MatchingTags(ps[..1], output);
    assert t == MatchingTags(ps[..1][..0], output) + (if Contains(output, ps[0].1) then [ps[0].0] else []);
    assert t == (if Contains(output, ps[0].1) then [ps[0].0] else []);
    var t2 := MatchingTags(ps[..2], output);
    var t3 := MatchingTags(ps[..3], output);
    var t4 := MatchingTags(ps[..4], output);
    assert t2 == t + (if Contains(output, ps[1].1) then [ps[1].0] else []);
    assert t3 == t2 + (if Contains(output, ps[2].1) then [ps[2].0] else []);
    assert t4 == t3 + (if Contains(output, ps[3].1) then [ps[3].0] else []);
    assert ProtocolTags(output) == t4 + (if Contains(output, ps[4].1) then [ps[4].0] else []);
  }

  /** NLA and the HYBRID tag come from the same pattern, so the record
      reports NLA exactly when it lists PROTOCOL_HYBRID. */
  lemma NlaIffHybrid(output: string)
    ensures "PROTOCOL_HYBRID" in ProtocolTags(output) <==> Contains(output, NlaPattern)
  {
    MatchingTagsMembership(ProtocolPatterns, output, "PROTOCOL_HYBRID");
    var ps := ProtocolPatterns;
    assert ps[2].0 == "PROTOCOL_HYBRID" && ps[2].1 == NlaPattern;
    assert forall k :: 0 <= k < |ps| && ps[k].0 == "PROTOCOL_HYBRID" ==> k == 2;
  }

  /** `RDP Encryption level: <label>` starts at index `i`. */
  predicate LevelAt(s: string, i: int, level: string) {
    OccursAt(s, LevelPrefix + level, i)
  }

  /** The first alternative that matches at index `i`. */
  function LabelAt(s: string, i: int, labels: seq<string>): (r: Option<string>)
    ensures r.Some? ==> r.value in labels && LevelAt(s, i, r.value)
    ensures r.None? ==> forall l :: l in labels ==> !LevelAt(s, i, l)
    decreases |labels|
  {
    if labels == [] then None
    else if LevelAt(s, i, labels[0]) then Some(labels[0])
    else LabelAt(s, i, labels[1..])
  }

  /** `regex_ENCRYPTION_LEVEL.search(s)` from index `i`, with the pattern's
      alternatives `labels`: the label of the leftmost match. */
  function FindLevel(s: string, i: nat, labels: seq<string>): Option<string>
    decreases |s| - i
  {
    if i > |s| then None
    else
      match LabelAt(s, i, labels)
      case Some(l) => Some(l)
      case None => FindLevel(s, i + 1, labels)
  }

  /** The search finds a match exactly when there is one, and what it finds
      is the leftmost one. */
  lemma {:induction false} FindLevelLeftmost(s: string, from: nat, labels: seq<string>)
    ensures FindLevel(s, from, labels).None? <==>
      forall i, l :: from <= i && l in labels ==> !LevelAt(s, i, l)
    ensures FindLevel(s, from, labels).Some? ==>
      FindLevel(s, from, labels).value in labels
      && exists i :: from <= i && LevelAt(s, i, FindLevel(s, from, labels).value)
           && forall j, l :: from <= j < i && l in labels ==> !LevelAt(s, j, l)
    decreases |s| - from
  {
    if from <= |s| {
      match LabelAt(s, from, labels)
      case Some(l) =>
        assert LevelAt(s, from, l);
      case None =>
        FindLevelLeftmost(s, from + 1, labels);
        if FindLevel(s, from, labels).Some? {
          var v := FindLevel(s, from, labels).value;
          var i :| from + 1 <= i && LevelAt(s, i, v)
            && forall j, l :: from + 1 <= j < i && l in labels ==> !LevelAt(s, j, l);
          assert forall j, l :: from <= j < i && l in labels ==> !LevelAt(s, j, l);
        }
    }
  }

  /** At one index at most one label can match (their first letters
      differ), so the leftmost match determines the label. */
  lemma LevelLabelUnique(s: string, i: int, l1: string, l2: string)
    requires l1 in LevelLabels && l2 in LevelLabels
    requires LevelAt(s, i, l1) && LevelAt(s, i, l2)
    ensures l1 == l2
  {
    var n := |LevelPrefix|;
    assert (LevelPrefix + l1)[n] == s[i + n] == (LevelPrefix + l2)[n];
  }

  /** The `encryption_level` the script output yields. */
  function EncryptionLevel(output: string): string {
    match FindLevel(output, 0, LevelLabels)
    case None => NoEncryptionLevel
    case Some(l) => if l in EncryptionLevels then EncryptionLevels[l] else NoEncryptionLevel
  }

  /** `ENCRYPTION_LEVEL_NONE` exactly when no known level phrase occurs. */
  lemma EncryptionLevelNone(output: string)
    ensures EncryptionLevel(output) == NoEncryptionLevel <==>
      forall i, l :: 0 <= i && l in LevelLabels ==> !LevelAt(output, i, l)
  {
    FindLevelLeftmost(output, 0, LevelLabels);
  }

  /** Otherwise the table entry for the leftmost phrase. */
  lemma EncryptionLevelLeftmost(output: string, i: int, l: string)
    requires 0 <= i && l in LevelLabels && LevelAt(output, i, l)
    requires forall j, l' :: 0 <= j < i && l' in LevelLabels ==> !LevelAt(output, j, l')
    ensures EncryptionLevel(output) == EncryptionLevels[l]
  {
    FindLevelLeftmost(output, 0, LevelLabels);
    var found := FindLevel(output, 0, LevelLabels).value;
    var i' :| 0 <= i' && LevelAt(output, i', found)
      && forall j, l' :: 0 <= j < i' && l' in LevelLabels ==> !LevelAt(output, j, l');
    assert i' == i;
    LevelLabelUnique(output, i, l, found);
  }

  /** The recorded level for the output `RDP Encryption level: High`. */
  lemma EncryptionLevelHigh()
    ensures EncryptionLevel("RDP Encryption level: High") == "ENCRYPTION_LEVEL_HIGH"
  {
    var s := "RDP Encryption level: High";
    EncryptionLevelLeftmost(s, 0, "High");
  }

  /** `_parse_rdp_enum_encryption`: add the protocol tags, set the level,
      and set NLA when its pattern occurs (otherwise leave it). */
  function EnumEncryptionSpec<I>(output: string, r: Record<I>): Record<I> {
    r.(protocols := r.protocols + ProtocolTags(output),
       encryptionLevel := Some(EncryptionLevel(output)),
       nla := if Contains(output, NlaPattern) then true else r.nla)
  }

  method ParseEnumEncryption(output: string, service: Service) returns (s: Service)
    ensures s == EnumEncryptionSpec(output, service)
  {
    s := service;
    var k := 0;
    while k < |ProtocolPatterns|
      invariant 0 <= k <= |ProtocolPatterns|
      invariant s == service.(protocols := service.protocols + MatchingTags(ProtocolPatterns[..k], output))
    {
      assert ProtocolPatterns[..k + 1][..k] == ProtocolPatterns[..k];
      var (tag, pattern) := ProtocolPatterns[k];
      if Contains(output, pattern) {
        s := s.(protocols := s.protocols + [tag]);
      }
      k := k + 1;
    }
    assert ProtocolPatterns[..k] == ProtocolPatterns;
    var m := FindLevel(output, 0, LevelLabels);
    if m.None? {
      s := s.(encryptionLevel := Some(NoEncryptionLevel));
    } else {
      FindLevelLeftmost(output, 0, LevelLabels);
      s := s.(encryptionLevel := Some(EncryptionLevels[m.value]));
    }
    if Contains(output, NlaPattern) {
      s := s.(nla := true);
    }
  }

  // ---------------------------------------------------------------------
  // rdp-ntlm-info

  /** `f"{elem.text}"`: the text, or "None" for an empty element. */
  function ElemText(text: Option<string>): string {
    match text
    case None => "None"
    case Some(t) => t
  }

  function ElemValue(text: Option<string>): Value {
    match text
    case None => NoneValue
    case Some(t) => Str(t)
  }

  function NtlmEntry(e: Elem): string {
    "NTLMSSP: `" + e.key + "=" + ElemText(e.text) + "`"
  }

  function DisclosureValues(e: Elem): map<string, Value> {
    map["key" := Str(e.key), "value" := ElemValue(e.text)]
  }

  function DisclosureFinding(e: Elem): Finding {
    Finding(DisclosureIssue, DisclosureValues(e))
  }

  function NtlmMisc(elems: seq<Elem>): seq<string>
    decreases |elems|
  {
    if elems == [] then [] else NtlmMisc(elems[..|elems| - 1]) + [NtlmEntry(elems[|elems| - 1])]
  }

  function NtlmFindings(elems: seq<Elem>): seq<Finding>
    decreases |elems|
  {
    if elems == [] then []
    else
      var e := elems[|elems| - 1];
      NtlmFindings(elems[..|elems| - 1]) + (if e.key in DisclosedKeys then [DisclosureFinding(e)] else [])
  }

  /** One `misc` entry per element, in order. */
  lemma {:induction false} NtlmMiscSpec(elems: seq<Elem>)
    ensures |NtlmMisc(elems)| == |elems|
    ensures forall k :: 0 <= k < |elems| ==> NtlmMisc(elems)[k] == NtlmEntry(elems[k])
    decreases |elems|
  {
    if elems != [] {
      var init := elems[..|elems| - 1];
      NtlmMiscSpec(init);
      assert forall k :: 0 <= k < |init| ==> init[k] == elems[k];
    }
  }

  /** An Issue is raised for exactly the elements whose key is
      `DNS_Computer_Name` or `Product_Version`, carrying that key and
      value, and for no other. */
  lemma {:induction false} NtlmFindingsSpec(elems: seq<Elem>)
    ensures |NtlmFindings(elems)| <= |elems|
    ensures forall f :: f in NtlmFindings(elems) <==>
      exists k :: 0 <= k < |elems| && elems[k].key in DisclosedKeys && f == DisclosureFinding(elems[k])
    ensures (forall k :: 0 <= k < |elems| ==> elems[k].key !in DisclosedKeys) ==> NtlmFindings(elems) == []
    decreases |elems|
  {
    if elems != [] {
      var init := elems[..|elems| - 1];
      NtlmFindingsSpec(init);
      assert forall k :: 0 <= k < |init| ==> init[k] == elems[k];
    }
  }

  /** The findings follow the elements: those of `a + b` are those of `a`
      followed by those of `b`, and one element yields one finding when its
      key is disclosed and none otherwise. Together with `NtlmFindingsSpec`
      this fixes their number and order. */
  lemma {:induction false} NtlmFindingsAppend(a: seq<Elem>, b: seq<Elem>)
    ensures NtlmFindings(a + b) == NtlmFindings(a) + NtlmFindings(b)
    decreases |b|
  {
    if b == [] {
      assert a + b == a;
    } else {
      var init := b[..|b| - 1];
      var e := b[|b| - 1];
      var tail := if e.key in DisclosedKeys then [DisclosureFinding(e)] else [];
      NtlmFindingsAppend(a, init);
      assert (a + b)[..|a + b| - 1] == a + init;
      assert (a + b)[|a + b| - 1] == e;
      assert NtlmFindings(a + b) == NtlmFindings(a + init) + tail;
      assert NtlmFindings(b) == NtlmFindings(init) + tail;
    }
  }

  lemma NtlmFindingsSingle(e: Elem)
    ensures NtlmFindings([e]) == (if e.key in DisclosedKeys then [DisclosureFinding(e)] else [])
  {
  }

  /** `_parse_rdp_ntlm_info` */
  function NtlmInfoSpec(elems: seq<Elem>, r: Record<Finding>): Record<Finding> {
    r.(misc := r.misc + NtlmMisc(elems), issues := r.issues + NtlmFindings(elems))
  }

  method ParseNtlmInfo(elems: seq<Elem>, service: Service) returns (s: Service)
    ensures View(s) == NtlmInfoSpec(elems, View(service))
  {
    s := service;
    var k := 0;
    while k < |elems|
      invariant 0 <= k <= |elems|
      invariant View(s) == NtlmInfoSpec(elems[..k], View(service))
    {
      assert elems[..k + 1][..k] == elems[..k];
      var e := elems[k];
      s := s.(misc := s.misc + [NtlmEntry(e)]);
      if e.key in DisclosedKeys {
        var issue := new Issue(DisclosureIssue, DisclosureValues(e));
        FindingsAppend(s.issues, issue);
        s := s.(issues := s.issues + [issue]);
      }
      k := k + 1;
    }
    assert elems[..k] == elems;
  }

  // ---------------------------------------------------------------------
  // Script dispatch, ports, hosts

  /** The effect of one script result on the record. */
  function ScriptSpec(script: Script, r: Record<Finding>): Record<Finding> {
    if script.id == EnumEncryptionScript then EnumEncryptionSpec(script.output, r)
    else if script.id == NtlmInfoScript then NtlmInfoSpec(script.elems, r)
    else if Contains(script.id, ScriptFamily) then r.(info := r.info + [NotParsed(script.id)])
    else r
  }

  function ScriptsSpec(scripts: seq<Script>, r: Record<Finding>): Record<Finding>
    decreases |scripts|
  {
    if scripts == [] then r else ScriptSpec(scripts[|scripts| - 1], ScriptsSpec(scripts[..|scripts| - 1], r))
  }

  /** A script whose id is neither known one adds one `info` entry when
      the id mentions "rdp", and nothing otherwise; it never adds an
      Issue. */
  lemma OtherScript(script: Script, r: Record<Finding>)
    requires script.id != EnumEncryptionScript && script.id != NtlmInfoScript
    ensures ScriptSpec(script, r).issues == r.issues
    ensures Contains(script.id, ScriptFamily) ==> ScriptSpec(script, r) == r.(info := r.info + [NotParsed(script.id)])
    ensures !Contains(script.id, ScriptFamily) ==> ScriptSpec(script, r) == r
  {
  }

  /** Scripts never change where the record says the service is. */
  lemma {:induction false} ScriptsKeepLocation(scripts: seq<Script>, r: Record<Finding>)
    ensures var u := ScriptsSpec(scripts, r);
      u.address == r.address && u.port == r.port && u.transportProtocol == r.transportProtocol
      && u.version == r.version
    decreases |scripts|
  {
    if scripts != [] {
      ScriptsKeepLocation(scripts[..|scripts| - 1], r);
    }
  }

  /** A port whose scripts are all unrelated to RDP keeps its fresh record
      as it was. */
  lemma {:induction false} ScriptsWithoutRdp(scripts: seq<Script>, r: Record<Finding>)
    requires forall k :: 0 <= k < |scripts| ==> !Contains(scripts[k].id, ScriptFamily)
    ensures ScriptsSpec(scripts, r) == r
    decreases |scripts|
  {
    if scripts != [] {
      var init := scripts[..|scripts| - 1];
      assert forall k :: 0 <= k < |init| ==> init[k] == scripts[k];
      ScriptsWithoutRdp(init, r);
      assert OccursAt(EnumEncryptionScript, ScriptFamily, 0);
      assert OccursAt(NtlmInfoScript, ScriptFamily, 0);
    }
  }

  /** The record stored for a new open port, before its scripts run. */
  function NewRecord<I>(address: string, port: Port): Record<I> {
    Schema<I>().(address := Some(address), transportProtocol := Some(port.protocol),
                 port := Some(port.portid), info := [])
  }

  /** One port of a host with the given address. */
  function PortSpec(t: Table<Finding>, address: string, port: Port): Parsed {
    match port.state
    case None => Parsed(t, Some(MissingStateNode))
    case Some(state) =>
      if state != OpenState then Parsed(t, None)
      else
        var id := Identifier(address, port.portid, port.protocol);
        if id in t.records then Parsed(t, None)
        else Parsed(Assign(t, id, ScriptsSpec(port.scripts, NewRecord(address, port))), None)
  }

  function PortsFrom(t: Table<Finding>, address: string, ports: seq<Port>): Parsed
    decreases |ports|
  {
    if ports == [] then Parsed(t, None)
    else
      var p := PortSpec(t, address, ports[0]);
      if p.failure.Some? then p else PortsFrom(p.table, address, ports[1..])
  }

  /** One host: nothing unless it has an IPv4/IPv6 address. */
  function HostSpec(t: Table<Finding>, host: Host): Parsed {
    match FirstIpAddress(host.addresses)
    case None => Parsed(t, None)
    case Some(address) => PortsFrom(t, address, host.ports)
  }

  function HostsFrom(t: Table<Finding>, hosts: seq<Host>): Parsed
    decreases |hosts|
  {
    if hosts == [] then Parsed(t, None)
    else
      var p := HostSpec(t, hosts[0]);
      if p.failure.Some? then p else HostsFrom(p.table, hosts[1..])
  }

  /** The body of `parse_file` after the file name is read and the XML is
      parsed. */
  function DocumentSpec(t: Table<Finding>, doc: Document): Parsed {
    HostsFrom(t, doc.hosts)
  }

  /** The dispatch on one script id. */
  method ParseScript(script: Script, service: Service) returns (s: Service)
    ensures View(s) == ScriptSpec(script, View(service))
  {
    if script.id == EnumEncryptionScript {
      s := ParseEnumEncryption(script.output, service);
    } else if script.id == NtlmInfoScript {
      s := ParseNtlmInfo(script.elems, service);
    } else if Contains(script.id, ScriptFamily) {
      s := service.(info := service.info + [NotParsed(script.id)]);
    } else {
      s := service;
    }
  }

  method ParseScripts(scripts: seq<Script>, service: Service) returns (s: Service)
    ensures View(s) == ScriptsSpec(scripts, View(service))
  {
    s := service;
    var j := 0;
    while j < |scripts|
      invariant 0 <= j <= |scripts|
      invariant View(s) == ScriptsSpec(scripts[..j], View(service))
    {
      assert scripts[..j + 1][..j] == scripts[..j];
      s := ParseScript(scripts[j], s);
      j := j + 1;
    }
    assert scripts[..j] == scripts;
  }

  method ParsePort(table: Table<Issue>, address: string, port: Port) returns (u: Table<Issue>, failure: Option<ParseError>)
    ensures Parsed(ViewTable(u), failure) == PortSpec(ViewTable(table), address, port)
  {
    if port.state.None? {
      return table, Some(MissingStateNode);
    }
    if port.state.value != OpenState {
      return table, None;
    }
    var id := Identifier(address, port.portid, port.protocol);
    if id in table.records {
      return table, None;
    }
    var service: Service := NewRecord(address, port);
    u := Assign(table, id, service);
    service := ParseScripts(port.scripts, service);
    // The dictionary holds the very record the scripts filled in.
    u := Assign(u, id, service);
    assert u == Assign(table, id, service);
    ViewAssign(table, id, service);
    failure := None;
  }

  method ParseHost(table: Table<Issue>, host: Host) returns (u: Table<Issue>, failure: Option<ParseError>)
    ensures Parsed(ViewTable(u), failure) == HostSpec(ViewTable(table), host)
  {
    var address := SelectAddress(host.addresses);
    if address.None? {
      return table, None;
    }
    u := table;
    var j := 0;
    while j < |host.ports|
      invariant 0 <= j <= |host.ports|
      invariant PortsFrom(ViewTable(u), address.value, host.ports[j..]) == PortsFrom(ViewTable(table), address.value, host.ports)
    {
      assert host.ports[j..][0] == host.ports[j] && host.ports[j..][1..] == host.ports[j + 1..];
      u, failure := ParsePort(u, address.value, host.ports[j]);
      if failure.Some? {
        return;
      }
      j := j + 1;
    }
    failure := None;
  }

  /** `Parser.parse_file` from the parsed tree on. */
  method ParseDocument(table: Table<Issue>, doc: Document) returns (u: Table<Issue>, failure: Option<ParseError>)
    ensures Parsed(ViewTable(u), failure) == DocumentSpec(ViewTable(table), doc)
  {
    u := table;
    var i := 0;
    while i < |doc.hosts|
      invariant 0 <= i <= |doc.hosts|
      invariant HostsFrom(ViewTable(u), doc.hosts[i..]) == HostsFrom(ViewTable(table), doc.hosts)
    {
      assert doc.hosts[i..][0] == doc.hosts[i] && doc.hosts[i..][1..] == doc.hosts[i + 1..];
      u, failure := ParseHost(u, doc.hosts[i]);
      if failure.Some? {
        return;
      }
      i := i + 1;
    }
    failure := None;
  }

  // ---------------------------------------------------------------------
  // Properties of a whole document

  /** The record a port's identifier is stored with: an open port of a
      host with that address, the identifier built from them, and the
      record's address, port and transport protocol taken from them. */
  ghost predicate FromOpenPort(hosts: seq<Host>, id: string, r: Record<Finding>) {
    exists h, p :: h in hosts && p in h.ports
      && FirstIpAddress(h.addresses).Some?
      && p.state == Some(OpenState)
      && id == Identifier(FirstIpAddress(h.addresses).value, p.portid, p.protocol)
      && r.address == Some(FirstIpAddress(h.addresses).value)
      && r.port == Some(p.portid)
      && r.transportProtocol == Some(p.protocol)
  }

  /** The new records of `u` over `t` all come from open ports of `hosts`. */
  ghost predicate NewFromOpenPorts(t: Table<Finding>, u: Table<Finding>, hosts: seq<Host>) {
    forall id :: id in u.records && id !in t.records ==> FromOpenPort(hosts, id, u.records[id])
  }

  /** New records over new records are new records. */
  lemma NewFromTransitive(t: Table<Finding>, u: Table<Finding>, v: Table<Finding>, hosts: seq<Host>)
    requires Extends(u, v)
    requires NewFromOpenPorts(t, u, hosts) && NewFromOpenPorts(u, v, hosts)
    ensures NewFromOpenPorts(t, v, hosts)
  {
  }

  /** One port of the host keeps what is stored and adds at most the
      record of that port. */
  lemma PortSpecKeepsAndAdds(t: Table<Finding>, host: Host, address: string, port: Port)
    requires FirstIpAddress(host.addresses) == Some(address)
    requires port in host.ports
    ensures Extends(t, PortSpec(t, address, port).table)
    ensures Valid(t) ==> Valid(PortSpec(t, address, port).table)
    ensures NewFromOpenPorts(t, PortSpec(t, address, port).table, [host])
  {
    var p := PortSpec(t, address, port);
    if p.table != t {
      var id := Identifier(address, port.portid, port.protocol);
      ScriptsKeepLocation(port.scripts, NewRecord(address, port));
      assert FromOpenPort([host], id, p.table.records[id]);
    }
  }

  lemma {:induction false} PortsFromSpec(t: Table<Finding>, host: Host, address: string, ports: seq<Port>)
    requires FirstIpAddress(host.addresses) == Some(address)
    requires forall p :: p in ports ==> p in host.ports
    ensures Extends(t, PortsFrom(t, address, ports).table)
    ensures Valid(t) ==> Valid(PortsFrom(t, address, ports).table)
    ensures NewFromOpenPorts(t, PortsFrom(t, address, ports).table, [host])
    decreases |ports|
  {
    if ports != [] {
      var p := PortSpec(t, address, ports[0]);
      PortSpecKeepsAndAdds(t, host, address, ports[0]);
      if p.failure.None? {
        assert forall q :: q in ports[1..] ==> q in ports;
        PortsFromSpec(p.table, host, address, ports[1..]);
        var u := PortsFrom(t, address, ports).table;
        ExtendsTransitive(t, p.table, u);
        NewFromTransitive(t, p.table, u, [host]);
      }
    }
  }

  lemma {:induction false} HostsFromSpec(t: Table<Finding>, hosts: seq<Host>)
    ensures Extends(t, HostsFrom(t, hosts).table)
    ensures Valid(t) ==> Valid(HostsFrom(t, hosts).table)
    ensures NewFromOpenPorts(t, HostsFrom(t, hosts).table, hosts)
    decreases |hosts|
  {
    if hosts != [] {
      var h := hosts[0];
      var p := HostSpec(t, h);
      if FirstIpAddress(h.addresses).Some? {
        PortsFromSpec(t, h, FirstIpAddress(h.addresses).value, h.ports);
      }
      assert NewFromOpenPorts(t, p.table, hosts);
      if p.failure.None? {
        HostsFromSpec(p.table, hosts[1..]);
        var u := HostsFrom(t, hosts).table;
        ExtendsTransitive(t, p.table, u);
        assert forall g :: g in hosts[1..] ==> g in hosts;
        forall id | id in u.records && id !in t.records
          ensures FromOpenPort(hosts, id, u.records[id])
        {
          if id in p.table.records {
            assert u.records[id] == p.table.records[id];
          }
        }
      }
    }
  }

  /** First-seen wins and only open ports count: parsing a document keeps
      every record already stored, unchanged and in place (also when the
      parse stops early), and every record it adds was made for an open
      port of a host with an IPv4/IPv6 address, under that port's
      identifier, with the address, port and transport protocol taken
      from it. */
  lemma DocumentSpecKeepsAndAdds(t: Table<Finding>, doc: Document)
    ensures Extends(t, DocumentSpec(t, doc).table)
    ensures Valid(t) ==> Valid(DocumentSpec(t, doc).table)
    ensures NewFromOpenPorts(t, DocumentSpec(t, doc).table, doc.hosts)
    ensures DocumentSpec(t, doc).failure.None? ==> StoresOpenPorts(DocumentSpec(t, doc).table, doc.hosts)
  {
    HostsFromSpec(t, doc.hosts);
    if DocumentSpec(t, doc).failure.None? {
      HostsFromStores(t, doc.hosts);
    }
  }

  /** A second port entry with an identifier already stored changes
      nothing: the record of the first one is kept. */
  lemma DuplicatePortIgnored(t: Table<Finding>, address: string, p: Port, q: Port)
    requires p.state == Some(OpenState) && q.state.Some?
    requires Identifier(address, p.portid, p.protocol) == Identifier(address, q.portid, q.protocol)
    ensures PortSpec(PortSpec(t, address, p).table, address, q) == Parsed(PortSpec(t, address, p).table, None)
  {
  }

  // ---------------------------------------------------------------------
  // Ports and hosts in sequence

  /** A run of ports that does not fail is a first part followed by the
      rest. */
  lemma {:induction false} PortsFromAppend(t: Table<Finding>, address: string, a: seq<Port>, b: seq<Port>)
    requires PortsFrom(t, address, a).failure.None?
    ensures PortsFrom(t, address, a + b) == PortsFrom(PortsFrom(t, address, a).table, address, b)
    decreases |a|
  {
    if a == [] {
      assert a + b == b;
    } else {
      assert (a + b)[0] == a[0] && (a + b)[1..] == a[1..] + b;
      PortsFromAppend(PortSpec(t, address, a[0]).table, address, a[1..], b);
    }
  }

  /** The same for hosts. */
  lemma {:induction false} HostsFromAppend(t: Table<Finding>, a: seq<Host>, b: seq<Host>)
    requires HostsFrom(t, a).failure.None?
    ensures HostsFrom(t, a + b) == HostsFrom(HostsFrom(t, a).table, b)
    decreases |a|
  {
    if a == [] {
      assert a + b == b;
    } else {
      assert (a + b)[0] == a[0] && (a + b)[1..] == a[1..] + b;
      HostsFromAppend(HostSpec(t, a[0]).table, a[1..], b);
    }
  }

  /** What the hosts before a point stored stays, whatever the later
      hosts do, an error included. */
  lemma EarlierHostsKept(t: Table<Finding>, a: seq<Host>, b: seq<Host>)
    requires HostsFrom(t, a).failure.None?
    ensures Extends(HostsFrom(t, a).table, HostsFrom(t, a + b).table)
  {
    HostsFromAppend(t, a, b);
    HostsFromSpec(HostsFrom(t, a).table, b);
  }

  /** What the earlier hosts and the earlier ports of the current host
      stored stays, whatever the later ports and hosts do, an error
      included. */
  lemma EarlierPortsKept(t: Table<Finding>, a: seq<Host>, h: Host, address: string,
                         pa: seq<Port>, pb: seq<Port>, b: seq<Host>)
    requires FirstIpAddress(h.addresses) == Some(address) && h.ports == pa + pb
    requires HostsFrom(t, a).failure.None?
    requires PortsFrom(HostsFrom(t, a).table, address, pa).failure.None?
    ensures Extends(HostsFrom(t, a).table, HostsFrom(t, a + [h] + b).table)
    ensures Extends(PortsFrom(HostsFrom(t, a).table, address, pa).table, HostsFrom(t, a + [h] + b).table)
  {
    var t1 := HostsFrom(t, a).table;
    var t2 := PortsFrom(t1, address, pa).table;
    PortsFromAppend(t1, address, pa, pb);
    assert HostSpec(t1, h) == PortsFrom(t2, address, pb);
    PortsFromSpec(t2, h, address, pb);
    PortsFromSpec(t1, h, address, pa);
    var hs := HostSpec(t1, h);
    HostsFromAppend(t, a, [h] + b);
    assert a + [h] + b == a + ([h] + b);
    var u := HostsFrom(t, a + [h] + b).table;
    if hs.failure.None? {
      assert ([h] + b)[1..] == b;
      HostsFromSpec(hs.table, b);
      ExtendsTransitive(t2, hs.table, u);
    }
    ExtendsTransitive(t1, t2, u);
  }

  /** Every open port of every host with an IPv4/IPv6 address has its
      identifier among the keys. */
  ghost predicate StoresOpenPorts(u: Table<Finding>, hosts: seq<Host>) {
    forall h, p :: h in hosts && p in h.ports && FirstIpAddress(h.addresses).Some? && p.state == Some(OpenState) ==>
      Identifier(FirstIpAddress(h.addresses).value, p.portid, p.protocol) in u.records
  }

  lemma {:induction false} PortsFromStores(t: Table<Finding>, host: Host, address: string, ports: seq<Port>)
    requires FirstIpAddress(host.addresses) == Some(address)
    requires forall p :: p in ports ==> p in host.ports
    requires PortsFrom(t, address, ports).failure.None?
    ensures forall p :: p in ports && p.state == Some(OpenState) ==>
      Identifier(address, p.portid, p.protocol) in PortsFrom(t, address, ports).table.records
    decreases |ports|
  {
    if ports != [] {
      var p := PortSpec(t, address, ports[0]);
      assert forall q :: q in ports[1..] ==> q in ports;
      PortsFromStores(p.table, host, address, ports[1..]);
      PortsFromSpec(p.table, host, address, ports[1..]);
      assert forall q :: q in ports ==> q == ports[0] || q in ports[1..];
    }
  }

  lemma {:induction false} HostsFromStores(t: Table<Finding>, hosts: seq<Host>)
    requires HostsFrom(t, hosts).failure.None?
    ensures StoresOpenPorts(HostsFrom(t, hosts).table, hosts)
    decreases |hosts|
  {
    if hosts != [] {
      var h := hosts[0];
      var p := HostSpec(t, h);
      HostsFromStores(p.table, hosts[1..]);
      HostsFromSpec(p.table, hosts[1..]);
      if FirstIpAddress(h.addresses).Some? {
        PortsFromStores(t, h, FirstIpAddress(h.addresses).value, h.ports);
      }
      assert forall g :: g in hosts ==> g == h || g in hosts[1..];
    }
  }

  /** First-seen wins within a document: the first open port with an
      identifier not stored before stores the record its own scripts
      build, and no later port or host changes that record, whether the
      parse goes on to fail or not. */
  lemma FirstSeenWins(t: Table<Finding>, a: seq<Host>, h: Host, address: string,
                      pa: seq<Port>, p: Port, pb: seq<Port>, b: seq<Host>)
    requires FirstIpAddress(h.addresses) == Some(address) && h.ports == pa + [p] + pb
    requires p.state == Some(OpenState)
    requires Identifier(address, p.portid, p.protocol) !in t.records
    requires forall g, q :: g in a && q in g.ports && FirstIpAddress(g.addresses).Some? && q.state == Some(OpenState) ==>
      Identifier(FirstIpAddress(g.addresses).value, q.portid, q.protocol) != Identifier(address, p.portid, p.protocol)
    requires forall q :: q in pa && q.state == Some(OpenState) ==>
      Identifier(address, q.portid, q.protocol) != Identifier(address, p.portid, p.protocol)
    requires HostsFrom(t, a).failure.None?
    requires PortsFrom(HostsFrom(t, a).table, address, pa).failure.None?
    ensures var u := DocumentSpec(t, Document(a + [h] + b)).table;
      Identifier(address, p.portid, p.protocol) in u.records
      && u.records[Identifier(address, p.portid, p.protocol)] == ScriptsSpec(p.scripts, NewRecord(address, p))
  {
    var id := Identifier(address, p.portid, p.protocol);
    var t1 := HostsFrom(t, a).table;
    var t2 := PortsFrom(t1, address, pa).table;
    HostsFromSpec(t, a);
    assert id !in t1.records;
    var h' := h.(ports := pa);
    PortsFromSpec(t1, h', address, pa);
    assert id !in t2.records;
    PortsFromAppend(t1, address, pa, [p]);
    EarlierPortsKept(t, a, h, address, pa + [p], pb, b);
  }
}
