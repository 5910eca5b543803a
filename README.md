# recon analyzers: a Dafny model

This project models the analyzer framework of *recon* and its two Nmap parsers:

- **Issue renderer.** An `Issue` is a finding: an id plus named values. `format` looks the id up in the template mapping. It renders the entry's description against the values, then each recommendation and each reference. A template string is a sequence of literal pieces and named fields `{name}`.
- **Parser framework.** `parse_files` runs `parse_file` on every path of the parser's file type, in order. A file that raises is only logged: later files still run, and whatever the file added before raising stays. `parse_file` reads the application and transport protocol from the file name (`<application>,<transport>,…`).
- **Analyzer guards.** `set_parser` refuses a parser name without a module. `analyze` refuses when nothing is there to analyze.
- **The RDP parser** (`rdp/nmap.py`) turns an Nmap XML tree into service records keyed by `address:port (protocol)`:
  - it uses the first IPv4/IPv6 address of each host and only ports whose state is `open`; the first record seen for an identifier wins;
  - from `rdp-enum-encryption` it takes the security protocols, the encryption level and NLA;
  - from `rdp-ntlm-info` it takes one `misc` entry per field, plus an "information disclosure" Issue for `DNS_Computer_Name` and `Product_Version`;
  - other RDP scripts go to `info` as "not parsed".
- **The NTP parser** (`ntp/nmap.py`) builds records the same way, with these differences:
  - the address is the host's first address of any type;
  - the transport protocol is not stored on the record;
  - the version is taken from the port's `service` element;
  - `ntp-monlist` adds a "Mode 7" amplification Issue;
  - `ntp-info` adds a "Mode 6" amplification Issue, plus the `key=value` entries of its fields, except the receive time stamp.

## How the model is built

**Shape of the code.** Each piece of the framework that changes state is a Dafny class or method:

- `Issues.Issue` has `const` `id` and `values` and mutable rendered fields.
- `Parsers.Parser` holds the `services` mapping and the two protocols read from the last file name.
- `Analyzers.Analyzer` holds the parser name and the parser.
- The parsers' host, port, script and element loops are `while` loops.

**Specifications.** Every method but one is proved equal to a pure specification function of its inputs and old state, such as `FormatSpec`, `FileSpec`, `BatchSpec`, `DocumentSpec` and `ScriptsSpec`. The exception is `Analyzers.Analyzer.SetParser`: its outcome is proved equal to `SetParserOutcome`, and its new state is stated field by field in its own contract. The lemmas state what the source promises about those functions.

**Records.**
- Service records are values of `Records.Record<I>`. Stored records hold `Issue` objects (`Record<Issue>`). Specifications describe them with each Issue replaced by its finding, its id and values (`Record<Finding>`, through `View`).
- The `services` dictionary is `Records.Table`: a map plus its keys in insertion order, since a Python dictionary keeps that order. `Assign` is `services[id] = record`.
- In Python, a parser fills a record in place through the reference the dictionary holds. Here the parser inserts the new record and then writes the filled-in record back under the same key.

**Inputs and errors.**
- The XML tree is an input datatype (`Nmap.Document`).
- The files that can be read and parsed are a map from path to tree. A path absent from it fails like unreadable XML.
- Each exception that ends a file is a `Records.ParseError` value. Each `sys.exit` is an `Analyzers.Fatal` value.

**Behaviour of the code worth noting, modelled as written:**
- `analyze` looks up `parser_name` among the keys of `files` (`analyzers/__init__.py:151`), while `parse_files` looks up `file_type` (`analyzers/__init__.py:76`). `Analyzers.AnalyzeGuardIgnoresFileType` shows the effect: with the `nmap` parser and only XML files, the analyzer exits with "nothing to analyze".
- The NTP parser does not record the transport protocol, although it is part of the identifier (`analyzers/ntp/nmap.py:66`).
- `_parse_monlist` returns a string, and `service['misc'] += …` extends the list by that string's characters. `misc` therefore gets one entry per character of the not-parsed message (`NtpNmap.MonlistScriptSpec`).
- In the NTP parser several steps raise: a missing address, state or service element; a version without a match; an info element without text. The record that was being filled stays stored with what it held so far.

## Model

| member | source | states |
|---|---|---|
| Issues.Issue.constructor | analyzers/__init__.py:11-27 | a new Issue keeps the given id and values, has no description and empty recommendation and reference lists |
| Issues.Issue.Format | analyzers/__init__.py:29-57 | the rendered fields and the outcome are those of `FormatSpec` on the old fields: unknown id or description failure changes nothing; a list key that is present replaces that list, with the items rendered before a failure; id and values never change |
| Issues.RenderSucceeds | analyzers/__init__.py:40-42 | rendering a template succeeds exactly when every field name of the template is a key of the values |
| Issues.RenderFailsAtFirstMissing | analyzers/__init__.py:40-42 | a failed rendering reports the leftmost field whose name has no value, and every token before it renders |
| Issues.RenderConcat | analyzers/__init__.py:41 | rendering is compositional: a concatenated template renders to the concatenation, and the first part's error wins |
| Issues.RenderExample | analyzers/__init__.py:41 | `"addr {a}"` with `a = "1.2.3.4"` renders to `"addr 1.2.3.4"` |
| Issues.RenderEachSpec | analyzers/__init__.py:44-57 | item k of a rendered list comes from template item k; the list is complete exactly when every item renders, and otherwise stops just before the first failing item, with that item's error |
| Issues.RenderList | analyzers/__init__.py:44-57 | the render-and-append loop yields exactly `RenderEach` of the template list |
| Issues.RenderListSucceeds | analyzers/__init__.py:44-57 | a list renders without error exactly when each item's field names are all keys of the values |
| Issues.FormatSucceeds | analyzers/__init__.py:29-57 | formatting succeeds exactly when the id has an entry with a description and every field of the description and of each present list has a value |
| Issues.FormatWithoutTemplate | analyzers/__init__.py:30 | an id without an entry raises before anything is rendered; the fields stay as they were |
| Issues.FormatRenders | analyzers/__init__.py:32-57 | after a successful format the description is its template rendered; a present list has the template list's length and order, item by item; a list whose key is absent is left unchanged |
| Issues.FormatIdempotent | analyzers/__init__.py:29-57 | formatting again with the same templates gives the same fields and the same outcome |
| Text.SplitJoin | analyzers/__init__.py:96-97 | `split` on one character loses nothing: joining the pieces gives the string back, and no piece holds the separator |
| Text.JoinSplit | analyzers/__init__.py:96-97 | the converse: pieces without the separator are recovered by splitting their join |
| Text.BasenameShape | analyzers/__init__.py:96 | `path.split('/')[-1]` holds no '/': it is the whole path when the path has no '/', and otherwise exactly what follows the last '/' |
| Text.BasenameAfterSlash | analyzers/__init__.py:96 | the base name of `dir/name` is `name` for any directory |
| Parsers.FilenameTokensSpec | analyzers/__init__.py:96-97 | the file-name tokens join back to the base name and hold no ',' or '/'; there are at least two exactly when the base name holds a comma |
| Parsers.FilenameConvention | analyzers/__init__.py:96-99 | a file `<dir>/<application>,<transport>[,…]` yields exactly the tokens application, transport, … |
| Parsers.Parser.constructor | analyzers/__init__.py:63-73 | a new parser has the variant's `nmap` name, the `xml` file type and an empty services mapping |
| Parsers.Parser.ParseFile | analyzers/__init__.py:87-99 | the new state and the error are those of `FileSpec`: the application protocol is set from token 0, fewer than two tokens raise, then the transport protocol is set from token 1 and the tree is parsed by the variant |
| Parsers.Parser.ParseFiles | analyzers/__init__.py:75-85 | the new state is `ParseFilesSpec`: unchanged without the file type, otherwise every path in order with failures ignored; the result is the services mapping |
| Parsers.FileKeepsRecords | analyzers/__init__.py:79-85 | one file, failing or not, keeps every stored record unchanged and in place, and keeps the mapping well formed |
| Parsers.FailedFileKeepsPartial | analyzers/__init__.py:80-83 | a file that raises part-way through its tree keeps, unchanged and in place, every record that the hosts before the failing point stored |
| Parsers.FailedFileKeepsEarlierPorts | analyzers/__init__.py:80-83 | it also keeps every record that the earlier ports of the host it fails in stored |
| Parsers.BatchKeepsRecords | analyzers/__init__.py:79-85 | a batch keeps every record stored before it, unchanged and in place, and keeps the mapping well formed |
| Parsers.BatchAppend | analyzers/__init__.py:79-83 | a batch is its first part followed by the rest, whatever failed in the first part, so a failing file never stops later ones |
| Parsers.OtherFileTypeUntouched | analyzers/__init__.py:76-77 | without its file type among the keys, `parse_files` changes nothing |
| Analyzers.SetParserOutcome | analyzers/__init__.py:134-136 | the name is accepted exactly when its module exists; otherwise the exit message is `unknown parser '<name>'` |
| Analyzers.AnalyzeGuard | analyzers/__init__.py:151-153 | analysis may go on exactly when a parser name is set and is a key of `files`; otherwise the exit message is "\nnothing to analyze" (or the name was never set) |
| Analyzers.AnalyzeGuardIgnoresFileType | analyzers/__init__.py:151 | with the `nmap` parser set and only XML files given, the guard still exits with "nothing to analyze" |
| Analyzers.Analyzer.constructor | analyzers/__init__.py:107-117 | a new analyzer has its name, no services, and no parser name or parser |
| Analyzers.Analyzer.SetParser | analyzers/__init__.py:119-143 | an unknown name is fatal and leaves the parser name and parser unchanged; a known one records the name and a new, empty parser of that kind |
| Analyzers.Analyzer.Analyze | analyzers/__init__.py:145-153 | the outcome is the guard's |
| RdpNmap.FirstIpAddress | analyzers/rdp/nmap.py:62-67 | no address exactly when no address element is IPv4 or IPv6; otherwise the `addr` of the first such element |
| RdpNmap.SelectAddress | analyzers/rdp/nmap.py:62-70 | the address loop with its early exit yields `FirstIpAddress` |
| RdpNmap.MatchingTagsMembership | analyzers/rdp/nmap.py:123-125 | a tag is appended exactly when its pattern occurs in the output |
| RdpNmap.ProtocolTagsInOrder | analyzers/rdp/nmap.py:114-125 | one tag per pattern found, always in the order RDP, SSL, HYBRID, RDSTLS, HYBRID_EX |
| RdpNmap.NlaIffHybrid | analyzers/rdp/nmap.py:114-136 | PROTOCOL_HYBRID is listed exactly when the NLA pattern occurs |
| RdpNmap.FindLevelLeftmost | analyzers/rdp/nmap.py:127-128 | the level search finds a match exactly when `RDP Encryption level: <label>` occurs for a known label, and what it finds is the leftmost match |
| RdpNmap.LevelLabelUnique | analyzers/rdp/nmap.py:127 | at most one of the four labels can match at one position |
| RdpNmap.EncryptionLevelNone | analyzers/rdp/nmap.py:127-130 | the level is ENCRYPTION_LEVEL_NONE exactly when no `RDP Encryption level: <label>` phrase occurs for a known label |
| RdpNmap.EncryptionLevelLeftmost | analyzers/rdp/nmap.py:127-132 | when such a phrase occurs, the level is the `ENCRYPTION_LEVELS` entry for the label of the leftmost one |
| RdpNmap.EncryptionLevelHigh | analyzers/rdp/nmap.py:127-132 | "RDP Encryption level: High" yields ENCRYPTION_LEVEL_HIGH |
| RdpNmap.ParseEnumEncryption | analyzers/rdp/nmap.py:109-136 | the record gets the matching tags appended and the level set; NLA is set to true when its pattern occurs and is otherwise unchanged; nothing else changes |
| RdpNmap.NtlmMiscSpec | analyzers/rdp/nmap.py:142-146 | one `NTLMSSP: key=value` entry per element, in order |
| RdpNmap.NtlmFindingsSpec | analyzers/rdp/nmap.py:148-155 | an "information disclosure" Issue with that key and value is raised for exactly the `DNS_Computer_Name` and `Product_Version` elements, and for no other |
| RdpNmap.NtlmFindingsAppend | analyzers/rdp/nmap.py:148-155 | the Issues follow the elements: those of two runs of elements are those of the first run followed by those of the second |
| RdpNmap.NtlmFindingsSingle | analyzers/rdp/nmap.py:148-155 | a single element raises one Issue with its key and value when its key is disclosed, and none otherwise |
| RdpNmap.ParseNtlmInfo | analyzers/rdp/nmap.py:138-155 | the loop appends those entries to `misc` and those Issues to `issues`, nothing else |
| RdpNmap.OtherScript | analyzers/rdp/nmap.py:104-106 | another script id adds exactly one `info` entry and no Issue when it mentions "rdp", and nothing otherwise |
| RdpNmap.ParseScript | analyzers/rdp/nmap.py:94-106 | one script result as `ScriptSpec`: the encryption and NTLM scripts go to their parsers, another id mentioning "rdp" adds a not-parsed `info` entry, any other changes nothing |
| RdpNmap.ParseScripts | analyzers/rdp/nmap.py:93-107 | the script loop yields `ScriptsSpec`: every script result in order |
| RdpNmap.ScriptsKeepLocation | analyzers/rdp/nmap.py:93-107 | script results never change a record's address, port, transport protocol or version |
| RdpNmap.ScriptsWithoutRdp | analyzers/rdp/nmap.py:93-107 | a port whose scripts do not mention "rdp" keeps its new record as it was |
| RdpNmap.ParsePort | analyzers/rdp/nmap.py:72-107 | one port as `PortSpec`: a missing state raises; a closed port or a known identifier changes nothing; a new open port stores its record after the scripts |
| RdpNmap.ParseHost | analyzers/rdp/nmap.py:61-107 | one host as `HostSpec`: nothing without an IPv4/IPv6 address, otherwise its ports in order, stopping at the first error |
| RdpNmap.ParseDocument | analyzers/rdp/nmap.py:59-107 | the whole tree as `DocumentSpec`: the hosts in order, stopping at the first error |
| RdpNmap.PortSpecKeepsAndAdds | analyzers/rdp/nmap.py:72-91 | one port keeps every stored record, and the only record it can add is this port's, when it is open |
| RdpNmap.DocumentSpecKeepsAndAdds | analyzers/rdp/nmap.py:61-91 | only open ports count, in both directions: every stored record stays unchanged and in place; every new record was made for an open port of a host with an IPv4/IPv6 address, under that port's identifier, with address, port and transport protocol taken from it; and when the parse does not fail, every open port of such a host has its identifier among the keys |
| RdpNmap.EarlierPortsKept | analyzers/rdp/nmap.py:61-107 | what the earlier hosts and the earlier ports of the current host stored stays, whatever the later ports and hosts do |
| RdpNmap.FirstSeenWins | analyzers/rdp/nmap.py:72-107 | first-seen wins within a document: the record under an identifier is the one built from the first open port with that identifier, by that port's scripts, and no later port changes it |
| RdpNmap.DuplicatePortIgnored | analyzers/rdp/nmap.py:79-82 | a second port entry with an identifier already stored changes nothing |
| NtpNmap.MatchIndexLeftmost | analyzers/ntp/nmap.py:104-107 | the version search finds a match exactly when some 'v' is followed by a character other than '@', and what it finds is the leftmost such position |
| NtpNmap.VersionGroup | analyzers/ntp/nmap.py:105 | a match's group, which runs to the next '@' or the end, is non-empty and holds no '@' |
| NtpNmap.ParseVersionOutcome | analyzers/ntp/nmap.py:101-109 | the version is absent exactly when the attribute is absent or empty; parsing raises exactly when a non-empty version has no 'v' followed by a character other than '@' |
| NtpNmap.ParseVersionGroup | analyzers/ntp/nmap.py:103-109 | a parsed version is the text after the leftmost 'v' that is followed by a character other than '@', up to the next '@' or the end; it is non-empty and holds no '@' |
| NtpNmap.ParseVersionExample | analyzers/ntp/nmap.py:104-105 | `v4.2.8p15@1.3728-o` yields `4.2.8p15` |
| NtpNmap.ExtendByChars | analyzers/ntp/nmap.py:82 | `list += str` keeps the list and appends each character as a one-character entry |
| NtpNmap.MonlistScriptSpec | analyzers/ntp/nmap.py:74-83 | `ntp-monlist` appends exactly one "Mode 7" Issue with `req_code=42`, `amplification_factor="?"`; `misc` grows by one single-character entry per character of the not-parsed message |
| NtpNmap.InfoScriptSpec | analyzers/ntp/nmap.py:85-93 | `ntp-info` appends exactly one "Mode 6" Issue with `opcode=2`, `amplification_factor="?"`, then the `_parse_info` entries; when that raises, the Issue is there and `misc` is unchanged |
| NtpNmap.OtherScript | analyzers/ntp/nmap.py:96-98 | another script id adds exactly one `info` entry and no Issue when it mentions "ntp", and nothing otherwise |
| NtpNmap.InfoSucceeds | analyzers/ntp/nmap.py:115-125 | `_parse_info` succeeds exactly when every element other than the receive time stamp has text |
| NtpNmap.InfoEntries | analyzers/ntp/nmap.py:115-125 | its entries are then those elements, in order, each as `key=` followed by the stripped text |
| NtpNmap.InfoFailsAtFirst | analyzers/ntp/nmap.py:122 | otherwise it raises for the first such element without text |
| NtpNmap.KeptSpec | analyzers/ntp/nmap.py:118-121 | the elements `_parse_info` reads are exactly those whose key is not the receive time stamp |
| NtpNmap.InfoSkipsSuppressed | analyzers/ntp/nmap.py:120-121 | a receive time stamp element never contributes, whatever its text |
| NtpNmap.ParseInfo | analyzers/ntp/nmap.py:115-125 | the filter loop yields exactly `InfoSpec` |
| NtpNmap.ScriptsAppendOnly | analyzers/ntp/nmap.py:71-98 | script results keep the address, port, transport protocol and version, and only append to issues, `misc` and `info` |
| NtpNmap.ScriptsIssues | analyzers/ntp/nmap.py:71-98 | every Issue the scripts add is the Mode 7 or the Mode 6 finding; when they all succeed, there is one per `ntp-monlist` or `ntp-info` result |
| NtpNmap.ScriptsWithoutNtp | analyzers/ntp/nmap.py:71-98 | a port whose scripts do not mention "ntp" keeps its record as it was |
| NtpNmap.ParseScripts | analyzers/ntp/nmap.py:71-98 | the script loop yields `ScriptsSpec`, stopping at the first error |
| NtpNmap.ParsePort | analyzers/ntp/nmap.py:50-98 | one port as `PortSpec`: a missing state raises; a closed port or a known identifier changes nothing; a new open port is stored, then its version (a missing service element or a failed match raises, and the record stays) and its scripts |
| NtpNmap.ParseHost | analyzers/ntp/nmap.py:47-98 | one host as `HostSpec`: no address element raises; otherwise the first address, and its ports in order |
| NtpNmap.ParseDocument | analyzers/ntp/nmap.py:45-98 | the whole tree as `DocumentSpec` |
| NtpNmap.PortSpecKeepsAndAdds | analyzers/ntp/nmap.py:50-69 | one port, also when it raises, keeps every stored record, and the only record it can add is this port's, when it is open |
| NtpNmap.DocumentSpecKeepsAndAdds | analyzers/ntp/nmap.py:47-67 | only open ports count, in both directions: every stored record stays unchanged and in place; every new record was made for an open port, under its identifier, with the host's first address, the port, and no transport protocol; and when the parse does not raise, every host has an address element and every open port has its identifier among the keys |
| NtpNmap.EarlierPortsKept | analyzers/ntp/nmap.py:47-98 | what the earlier hosts and the earlier ports of the current host stored stays, whatever the later ports and hosts do, an exception included |
| NtpNmap.FirstSeenWins | analyzers/ntp/nmap.py:50-98 | first-seen wins within a document: the record under an identifier is the one the first open port with that identifier filled in (`PortRecord`: as made when the service element is missing or the version does not match, otherwise after the version and scripts), and no later port changes it |
| NtpNmap.MissingServiceKeepsRecord | analyzers/ntp/nmap.py:62-69 | a new open port without a service element raises after its record (address and port) is stored |
| Text.StripSpec | analyzers/ntp/nmap.py:122 | `strip()` gives a slice whose removed ends are whitespace and whose own ends are not |
| Text.NatToStringValue | analyzers/__init__.py:41 | the decimal digits a non-negative integer value is formatted as read back as that integer |
| Text.IntToStringValue | analyzers/__init__.py:41 | the text any integer value is formatted as reads back as that integer: a '-' followed by the digits of its magnitude when it is negative, its digits otherwise |
| Records.Assign | analyzers/rdp/nmap.py:84-85 | `services[id] = record` sets that entry; a new key goes to the end of the insertion order, an existing key keeps its place, and the mapping stays well formed |

## Left out

- Reading files and XML parsing (`defusedxml`, including its entity-expansion protection). The parsed tree is an input, and a file that cannot be read or parsed is a path missing from the documents map.
- Logging calls, and the import-time check that exits when `defusedxml` is missing.
- Locating and importing parser modules (`pathlib`, `importlib`). `set_parser` looks the pair (analyzer, parser name) up in a given map of available parsers.
- The full grammar of Python's `str.format`: positional fields, format specs and `{{ }}` escapes. Templates are literal pieces and named fields. Values are strings, integers or `None`, printed as Python's `str` does.
- A general regular-expression engine. The two searches the parsers make are written out by hand.
- The dictionary view of `Issue` (`dict.__init__`, `self['description']`, …). It duplicates the attributes, so the model keeps the attributes only.
- `copy.deepcopy` of the schema. Records are values, so each new record starts with its own empty lists.
- `analyzers/rdp/__init__.py` and `analyzers/ntp/__init__.py`, which declare `SERVICE_SCHEMA`, are not part of this model. The record has the fields the parsers fill in, with `NLA` false and every list empty.
- Attributes that might be absent: each script's `id` and `output`, each port's `protocol` and `portid`, each address's `addr` and `addrtype`, each NTLM or info element's `key` (`analyzers/rdp/nmap.py:143`, `analyzers/ntp/nmap.py:119`). With any of these missing, Python would raise or format `None`. The model assumes they are present as strings.
- The `recommendations` argument of `AbstractAnalyzer` and the concrete analyzers' `analyze`. The model does not use them.
- Issue aliasing: a stored record and the Issue objects in it are not shared elsewhere. The model writes the filled-in record back under its key rather than updating it in place.
