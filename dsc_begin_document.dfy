/**
 * The `%%BeginDocument` DSC comment: a file resource, its optional version
 * and optional type. `parseValue` reads them from the comment's parameters
 * and `generate` writes them back through the PostScript generator.
 * Splitting the comment value into parameters (`splitParams`) and
 * `Float.valueOf` are given: the first as the list of parameters, the second
 * as a parser that yields None where Java raises NumberFormatException.
 */
module DscBeginDocument {
  import opened Wrappers
  import opened PSGen

  const TYPE_FILE: string := "file"

  /** A DSC resource: its type (`file`, `procset`, ...) and its name. */
  datatype PSResource = PSResource(resType: string, name: string)

  /** A Java `Float`, by the text `Float.toString` gives for it. */
  datatype JavaFloat = JavaFloat(repr: string)

  /** `Float.valueOf`: None where Java raises NumberFormatException. */
  type FloatParser = string -> Option<JavaFloat>

  datatype BeginDocError =
    | ResourceNotFile     // IllegalArgumentException("Resource must be of type 'file'")
    | NoSuchElement       // NoSuchElementException: no parameter at all
    | NumberFormat        // NumberFormatException from Float.valueOf
    | NullResource        // NullPointerException: generate without a resource

  /** The three fields of the comment. */
  datatype BeginDocState = BeginDocState(resource: Option<PSResource>, version: Option<JavaFloat>, docType: Option<string>)

  /**
   * `parseValue` on the state `s`: the new state, and the exception if one
   * was raised (after the fields assigned before it).
   */
  function Parse(s: BeginDocState, params: seq<string>, parseFloat: FloatParser): (r: (BeginDocState, Option<BeginDocError>))
    ensures params == [] <==> r.1 == Some(NoSuchElement)
    ensures params == [] ==> r.0 == s
    ensures params != [] ==> r.0.resource == Some(PSResource(TYPE_FILE, params[0]))
    ensures |params| == 1 ==> r.0.version == s.version && r.0.docType == s.docType && r.1 == None
    ensures |params| >= 2 && parseFloat(params[1]).None? ==>
              r.1 == Some(NumberFormat) && r.0.version == s.version && r.0.docType == s.docType
    ensures |params| >= 2 && parseFloat(params[1]).Some? ==>
              r.1 == None && r.0.version == parseFloat(params[1]) &&
              r.0.docType == (if |params| >= 3 then Some(params[2]) else None)
  {
    if params == [] then (s, Some(NoSuchElement))
    else
      var named := s.(resource := Some(PSResource(TYPE_FILE, params[0])));
      if |params| == 1 then (named, None)
      else
        match parseFloat(params[1])
        case None => (named, Some(NumberFormat))
        case Some(v) =>
          var versioned := named.(version := Some(v), docType := None);
          if |params| == 2 then (versioned, None)
          else (versioned.(docType := Some(params[2])), None)
  }

  /** The parameters `generate` passes to `writeDSCComment`: name, then version, then type only after a version. */
  function GenerateParams(s: BeginDocState): (r: Result<seq<DscParam>, BeginDocError>)
    ensures r.Fail? <==> s.resource.None?
    ensures r.Ok? ==> 1 <= |r.value| <= 3 && r.value[0] == StrParam(s.resource.value.name)
    ensures r.Ok? ==> (|r.value| >= 2 <==> s.version.Some?)
    ensures r.Ok? && s.version.Some? ==> r.value[1] == NumberParam(s.version.value.repr)
    ensures r.Ok? ==> (|r.value| == 3 <==> s.version.Some? && s.docType.Some?)
    ensures r.Ok? && |r.value| == 3 ==> r.value[2] == StrParam(s.docType.value)
    ensures r.Ok? ==> forall i | 0 <= i < |r.value| :: FormatParam(r.value[i]).Ok?
  {
    match s.resource
    case None => Fail(NullResource)
    case Some(res) =>
      var head := [StrParam(res.name)];
      match s.version
      case None => Ok(head)
      case Some(v) =>
        match s.docType
        case None => Ok(head + [NumberParam(v.repr)])
        case Some(t) => Ok(head + [NumberParam(v.repr), StrParam(t)])
  }

  /** Parsing name, version and type and generating again gives the same three parameters. */
  lemma ParseThenGenerate(s: BeginDocState, name: string, version: string, docType: string, parseFloat: FloatParser)
    requires parseFloat(version).Some?
    ensures var p := Parse(s, [name, version, docType], parseFloat);
            p.1 == None &&
            GenerateParams(p.0) == Ok([StrParam(name), NumberParam(parseFloat(version).value.repr), StrParam(docType)])
  {
    var v := parseFloat(version).value;
    assert [StrParam(name)] + [NumberParam(v.repr), StrParam(docType)] == [StrParam(name), NumberParam(v.repr), StrParam(docType)];
  }

  /** With a single parameter the version and type of the earlier state are generated again. */
  lemma ParseNameOnlyKeepsVersion(s: BeginDocState, name: string, parseFloat: FloatParser)
    ensures var p := Parse(s, [name], parseFloat);
            GenerateParams(p.0).Ok? && GenerateParams(p.0).value[0] == StrParam(name) &&
            GenerateParams(p.0).value[1..] == GenerateParams(s.(resource := Some(PSResource(TYPE_FILE, name)))).value[1..]
  {
  }

  /** A type without a version is kept but never generated. */
  lemma TypeNeedsVersion(s: BeginDocState)
    requires s.resource.Some? && s.version.None? && s.docType.Some?
    ensures GenerateParams(s) == Ok([StrParam(s.resource.value.name)])
  {
  }

  class DSCCommentBeginDocument {
    var resource: Option<PSResource>
    var version: Option<JavaFloat>
    var docType: Option<string>

    function State(): BeginDocState
      reads this
    {
      BeginDocState(resource, version, docType)
    }

    /** The constructor without arguments: no resource, no version, no type. */
    constructor ()
      ensures State() == BeginDocState(None, None, None)
    {
      resource := None;
      version := None;
      docType := None;
    }

    /** The constructors with a resource: a resource that is not of type `file` is refused. */
    static method Create(resource: Option<PSResource>, version: Option<JavaFloat>, docType: Option<string>)
      returns (r: Result<DSCCommentBeginDocument, BeginDocError>)
      ensures r.Fail? <==> resource.Some? && resource.value.resType != TYPE_FILE
      ensures r.Fail? ==> r.error == ResourceNotFile
      ensures r.Ok? ==> fresh(r.value) && r.value.State() == BeginDocState(resource, version, docType)
    {
      if resource.Some? && resource.value.resType != TYPE_FILE {
        return Fail(ResourceNotFile);
      }
      var c := new DSCCommentBeginDocument();
      c.resource := resource;
      c.version := version;
      c.docType := docType;
      return Ok(c);
    }

    function GetName(): (name: string)
    {
      BEGIN_DOCUMENT
    }

    predicate HasValues()
    {
      true
    }

    /** `parseValue`: the parameters in turn set the resource, the version and the type. */
    method ParseValue(params: seq<string>, parseFloat: FloatParser) returns (r: Option<BeginDocError>)
      modifies this
      ensures State() == Parse(old(State()), params, parseFloat).0
      ensures r == Parse(old(State()), params, parseFloat).1
    {
      if params == [] {
        return Some(NoSuchElement);
      }
      resource := Some(PSResource(TYPE_FILE, params[0]));
      if |params| > 1 {
        var v := parseFloat(params[1]);
        if v.None? {
          return Some(NumberFormat);
        }
        version := v;
        docType := None;
        if |params| > 2 {
          docType := Some(params[2]);
        }
      }
      return None;
    }

    /** `generate`: writes `%%BeginDocument: name [version [type]]` through the generator. */
    method Generate(gen: PSGenerator) returns (r: Result<(), BeginDocError>)
      modifies gen`output
      ensures r.Fail? <==> resource.None?
      ensures r.Fail? ==> gen.output == old(gen.output)
      ensures r.Ok? ==>
                gen.output == old(gen.output) + AsciiBytes(DscLine(BEGIN_DOCUMENT, Some(GenerateParams(State()).value)).value) + [LF]
    {
      var params := GenerateParams(State());
      if params.Fail? {
        return Fail(params.error);
      }
      var written := gen.WriteDSCComment(GetName(), Some(params.value));
      return Ok(());
    }
  }

  /** The name is always `BeginDocument` and the comment always has values. */
  lemma NameAndValues(c: DSCCommentBeginDocument)
    ensures c.GetName() == "BeginDocument" && c.HasValues()
  {
  }
}
