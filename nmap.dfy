/** The part of an Nmap XML report the parsers read, as an already parsed
    tree. Each Python `find`/`iter` over the tree becomes a field here:
    a `find` that may return no node is an `Option`, an `iter` is a
    sequence in document order. */
module Nmap {
  import opened Outcomes

  /** `<address addr=".." addrtype=".."/>` */
  datatype Address = Address(addrtype: string, addr: string)

  /** `<elem key="..">text</elem>`; an empty element has no text. */
  datatype Elem = Elem(key: string, text: Option<string>)

  /** `<script id=".." output="..">` with its `elem` descendants. */
  datatype Script = Script(id: string, output: string, elems: seq<Elem>)

  /** `<service .. version=".."/>`; the attribute may be absent. */
  datatype ServiceNode = ServiceNode(version: Option<string>)

  /** `<port protocol=".." portid="..">`; `state` is the `state` attribute
      of its `<state>` child, `None` when that child is missing, and
      `service` is its `<service>` child, if any. */
  datatype Port = Port(
    protocol: string,
    portid: string,
    state: Option<string>,
    service: Option<ServiceNode>,
    scripts: seq<Script>)

  /** `<host>` with its `port` descendants and its `address` elements in
      document order. Nmap writes those as direct children of the host, so
      one list serves both the RDP parser, which scans all `address`
      descendants, and the NTP parser, which takes the first direct child
      (`addresses[0]`). */
  datatype Host = Host(addresses: seq<Address>, ports: seq<Port>)

  /** The `<nmaprun>` root with its `host` descendants. */
  datatype Document = Document(hosts: seq<Host>)

  const OpenState := "open"
}
