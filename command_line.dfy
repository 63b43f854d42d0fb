/** The script as a whole: the command line chooses the input page and the
    version, the page is scanned, the template is filled, and the result is
    written to a file named after the version. Reading and writing files
    are modelled by their contents: the caller passes what the reader yields
    (or nothing, when the file cannot be read) and receives what would be
    written. */
module CommandLine {
  import opened Text
  import opened RegionScan
  import opened TemplateFill

  const UsageStatus := 1
  const UsageMessage := "Need a adoc html file path e.g. adoc.html"
  const PreRelease := "pre-release"
  const ScriptExtension := ".js"

  /** What the arguments decide: give up with a usage message, or go on with
      the path of the page and the version to document. */
  datatype Args = Usage(status: int, message: string) | Args(htmlPath: string, version: string)

  /** `process.argv` holds the interpreter and the script before the user's
      arguments, so the page path is the third entry and the version the
      fourth. Without a page path the script stops with status 1. A version
      is taken only when it is the last of exactly four entries; with fewer
      or more entries the version is "pre-release". */
  function ParseArgs(argv: seq<string>): (r: Args)
    ensures r.Usage? <==> |argv| < 3
    ensures r.Usage? ==> r.status == UsageStatus && r.message == UsageMessage
    ensures r.Args? ==> r.htmlPath == argv[2]
    ensures r.Args? && |argv| == 4 ==> r.version == argv[3]
    ensures r.Args? && |argv| != 4 ==> r.version == PreRelease
  {
    if |argv| < 3 then Usage(UsageStatus, UsageMessage)
    else Args(argv[2], if |argv| == 4 then argv[3] else PreRelease)
  }

  /** Arguments after the version are not ignored: they discard the version,
      and the page is documented as pre-release, exactly as if only the page
      path had been given. */
  lemma ExtraArgumentsDiscardVersion(argv: seq<string>)
    requires |argv| > 4
    ensures ParseArgs(argv) == ParseArgs(argv[..3])
    ensures ParseArgs(argv).version == PreRelease
  {
  }

  /** The version is only ever a user argument or "pre-release". */
  lemma VersionChoices(argv: seq<string>)
    requires |argv| >= 3
    ensures ParseArgs(argv).version == PreRelease || ParseArgs(argv).version in argv[3..]
  {
    if |argv| == 4 {
      assert argv[3..][0] == argv[3];
    }
  }

  /** The name of the file the page is written to, inside the docs pages
      directory. */
  function DestinationName(version: string): (r: string)
    ensures |r| == |version| + |ScriptExtension|
  {
    version + ScriptExtension
  }

  /** The version a destination name was made from. */
  function VersionOfDestination(name: string): string
    requires |name| >= |ScriptExtension|
  {
    name[..|name| - |ScriptExtension|]
  }

  /** The destination name ends in ".js" and gives its version back, so two
      versions never share a destination name. */
  lemma DestinationRoundTrip(version: string)
    ensures DestinationName(version)[|version|..] == ScriptExtension
    ensures VersionOfDestination(DestinationName(version)) == version
  {
  }

  lemma DestinationInjective(v1: string, v2: string)
    requires DestinationName(v1) == DestinationName(v2)
    ensures v1 == v2
  {
    DestinationRoundTrip(v1);
    DestinationRoundTrip(v2);
  }

  /** How a run of the script ends. */
  datatype Outcome =
    | Exited(status: int, message: string)  // usage error, nothing read or written
    | PageUnreadable                         // the page cannot be read: the scan rejects, nothing is written
    | TemplateUnreadable                     // the template cannot be read: an error is reported, nothing is written
    | Wrote(name: string, contents: string)  // the filled page and the file it goes to

  /** A run of the script. `page` is the page's lines as the line reader
      yields them and `template` the template's text, each `None` when the
      file cannot be read. */
  method MakeDoc(argv: seq<string>, page: Option<seq<string>>, template: Option<string>) returns (o: Outcome)
    ensures |argv| < 3 ==> o == Exited(UsageStatus, UsageMessage)
    ensures |argv| >= 3 && page.None? ==> o == PageUnreadable
    ensures |argv| >= 3 && page.Some? && template.None? ==> o == TemplateUnreadable
    ensures |argv| >= 3 && page.Some? && template.Some? ==>
      var version := ParseArgs(argv).version;
      var scan := ScanPage(page.value);
      o == Wrote(DestinationName(version), Fill(template.value, version, scan.body, scan.toc))
  {
    var args := ParseArgs(argv);
    if args.Usage? {
      return Exited(args.status, args.message);
    }
    if page.None? {
      return PageUnreadable;
    }
    var toc, body := ProcessAdoc(page.value);
    if template.None? {
      return TemplateUnreadable;
    }
    return Wrote(DestinationName(args.version), Fill(template.value, args.version, body, toc));
  }

  /** Documenting a release: `make-doc.js adoc.html 0.22` writes `0.22.js`
      whose header names version 0.22. */
  lemma ReleaseExample(node: string, script: string)
    ensures var version := ParseArgs([node, script, "adoc.html", "0.22"]).version;
      version == "0.22" && DestinationName(version) == "0.22.js" &&
      VersionHeader(version) == "<h1> Version: 0.22</h1>"
  {
  }
}
