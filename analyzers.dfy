/** The analyzer framework (`AbstractAnalyzer` in `analyzers/__init__.py`):
    an analyzer picks one of the parsers of its protocol by name and
    refuses to analyze when its input holds nothing for it. Ending the
    program (`sys.exit`) is a fatal error result here. */
module Analyzers {
  import opened Outcomes
  import opened Records
  import Parsers

  /** Why an analyzer stops: `sys.exit` with a message, or reading
      `parser_name` before `set_parser` has set it. */
  datatype Fatal = Exit(message: string) | ParserNotSet

  function UnknownParser(parserName: string): string {
    "unknown parser '" + parserName + "'"
  }

  const NothingToAnalyze := "\nnothing to analyze"

  /** `set_parser`'s check: a parser module `<analyzer>/<parser>.py` exists
      exactly for the keys of `available`. */
  function SetParserOutcome(analyzer: string, parserName: string,
                            available: map<(string, string), Parsers.Variant>): (r: Outcome<Fatal>)
    ensures r.Pass? <==> (analyzer, parserName) in available
    ensures r.Fail? ==> r.error == Exit("unknown parser '" + parserName + "'")
  {
    if (analyzer, parserName) in available then Pass else Fail(Exit(UnknownParser(parserName)))
  }

  /** `analyze`'s guard. As written it looks the parser's name up among
      the file types, not the parser's file type. */
  function AnalyzeGuard(parserName: Option<string>, files: map<string, seq<string>>): (r: Outcome<Fatal>)
    ensures r.Pass? <==> parserName.Some? && parserName.value in files
    ensures parserName.None? ==> r == Fail(ParserNotSet)
    ensures parserName.Some? && parserName.value !in files ==> r == Fail(Exit("\nnothing to analyze"))
  {
    match parserName
    case None => Fail(ParserNotSet)
    case Some(name) => if name in files then Pass else Fail(Exit(NothingToAnalyze))
  }

  /** The guard and the parser disagree: with the `nmap` parser set and
      only XML files given, which that parser would parse, the analyzer
      reports that there is nothing to analyze. */
  lemma AnalyzeGuardIgnoresFileType(paths: seq<string>)
    ensures var files := map[Parsers.XmlFileType := paths];
      Parsers.XmlFileType in files
      && AnalyzeGuard(Some(Parsers.NmapName), files) == Fail(Exit(NothingToAnalyze))
  {
    var files := map[Parsers.XmlFileType := paths];
    assert Parsers.NmapName != Parsers.XmlFileType by {
      assert Parsers.NmapName[0] != Parsers.XmlFileType[0];
    }
    assert Parsers.NmapName !in files;
  }

  class Analyzer {
    const name: string
    var services: seq<Service>
    var parserName: Option<string>
    var parser: Parsers.Parser?

    constructor(name: string)
      ensures this.name == name && services == []
      ensures parserName.None? && parser == null
    {
      this.name := name;
      services := [];
      parserName := None;
      parser := null;
    }

    /** `set_parser`: an unknown name is fatal and changes nothing; a known
        one is recorded and gets a new parser of that kind. */
    method SetParser(parserName: string, available: map<(string, string), Parsers.Variant>) returns (r: Outcome<Fatal>)
      modifies this
      ensures r == SetParserOutcome(name, parserName, available)
      ensures r.Fail? ==> this.parserName == old(this.parserName) && parser == old(parser)
      ensures r.Pass? ==> (this.parserName == Some(parserName)
        && parser != null && fresh(parser)
        && parser.variant == available[(name, parserName)]
        && parser.services == Table(map[], []))
      ensures services == old(services)
    {
      if (name, parserName) !in available {
        return Fail(Exit(UnknownParser(parserName)));
      }
      this.parserName := Some(parserName);
      parser := new Parsers.Parser(available[(name, parserName)]);
      r := Pass;
    }

    /** `analyze` as far as the base class goes: the guard. */
    method Analyze(files: map<string, seq<string>>) returns (r: Outcome<Fatal>)
      ensures r == AnalyzeGuard(parserName, files)
    {
      if parserName.None? {
        return Fail(ParserNotSet);
      }
      if parserName.value !in files {
        return Fail(Exit(NothingToAnalyze));
      }
      r := Pass;
    }
  }
}
