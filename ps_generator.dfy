/**
 * The PostScript generator: literal-string escaping and DSC quoting
 * (PostScript Language Reference, section 3.2.2 "Literal Text Strings";
 * Document Structuring Conventions 3.0), DSC comment lines, the graphics
 * state stack behind gsave/grestore/showpage, and the once-only embedding of
 * the Identity-H CMap.
 *
 * Text is a Dafny string, a sequence of Unicode scalar values. Java works on
 * UTF-16 units, so a character above U+FFFF is two units for Java; where
 * that shows (escaping) the model says so explicitly. The output stream is
 * the sequence of bytes written so far; `write` encodes text as US-ASCII,
 * which replaces every character outside ASCII by `?`.
 */
module PSGen {
  import opened Wrappers
  import opened JavaInt

  const LF: uint8 := 10
  const BACKSPACE: char := 8 as char
  const FORMFEED: char := 12 as char

  /** `String.getBytes("US-ASCII")`: ASCII characters are kept, every other character becomes `?`. */
  function AsciiBytes(s: string): (r: seq<uint8>)
    ensures |r| == |s|
    ensures forall i | 0 <= i < |s| :: r[i] == if s[i] as int < 128 then s[i] as int else 63
  {
    seq(|s|, i requires 0 <= i < |s| => if s[i] as int < 128 then s[i] as int as uint8 else 63)
  }

  predicate IsAscii(s: string)
  {
    forall i | 0 <= i < |s| :: s[i] as int <= 127
  }

  /** The same as IsAscii, by recursion, so that it can be evaluated on a literal. */
  predicate AsciiLiteral(s: string)
  {
    s == [] || (s[0] as int <= 127 && AsciiLiteral(s[1..]))
  }

  lemma {:induction false} AsciiLiteralIsAscii(s: string)
    requires AsciiLiteral(s)
    ensures IsAscii(s)
  {
    if s != [] {
      AsciiLiteralIsAscii(s[1..]);
      assert forall i | 1 <= i < |s| :: s[i] == s[1..][i - 1];
    }
  }

  lemma AsciiAppend(a: string, b: string)
    requires IsAscii(a) && IsAscii(b)
    ensures IsAscii(a + b)
  {
    assert forall i | |a| <= i < |a + b| :: (a + b)[i] == b[i - |a|];
  }

  /** An ASCII text is written byte for byte. */
  lemma AsciiBytesExact(s: string)
    requires IsAscii(s)
    ensures forall i | 0 <= i < |s| :: AsciiBytes(s)[i] == s[i] as int
  {
  }

  // ---------------------------------------------------------------------
  // Literal-string escaping
  // ---------------------------------------------------------------------

  /** The characters escapeChar writes as a backslash and a letter or themselves. */
  predicate IsSpecial(c: char)
  {
    c == '\n' || c == '\r' || c == '\t' || c == BACKSPACE || c == FORMFEED || c == '\\' || c == '(' || c == ')'
  }

  predicate IsOctalDigit(c: char) { '0' <= c <= '7' }

  function OctalDigit(d: int): (c: char)
    requires 0 <= d < 8
    ensures IsOctalDigit(c) && c as int - 48 == d
  {
    (48 + d) as char
  }

  /**
   * `escapeChar`: the escape of one character inside a PostScript literal
   * string. A character above U+FFFF is two UTF-16 units for Java, each
   * above 255, so it becomes two question marks.
   */
  function EscapeChar(c: char): (r: string)
    ensures IsAscii(r) && 1 <= |r| <= 4
    ensures IsSpecial(c) ==> |r| == 2 && r[0] == '\\'
    ensures c as int > 0xFFFF ==> r == "??"
    ensures 255 < c as int <= 0xFFFF && !IsSpecial(c) ==> r == "?"
    ensures !IsSpecial(c) && (c as int < 32 || 127 < c as int <= 255) ==>
              |r| == 4 && r[0] == '\\' && IsOctalDigit(r[1]) && IsOctalDigit(r[2]) && IsOctalDigit(r[3]) &&
              (r[1] as int - 48) * 64 + (r[2] as int - 48) * 8 + (r[3] as int - 48) == c as int
    ensures 32 <= c as int <= 127 && !IsSpecial(c) ==> r == [c]
  {
    if c == '\n' then "\\n"
    else if c == '\r' then "\\r"
    else if c == '\t' then "\\t"
    else if c == BACKSPACE then "\\b"
    else if c == FORMFEED then "\\f"
    else if c == '\\' then "\\\\"
    else if c == '(' then "\\("
    else if c == ')' then "\\)"
    else if c as int > 0xFFFF then "??"
    else if c as int > 255 then "?"
    else if c as int < 32 || c as int > 127 then
      ['\\', OctalDigit(c as int / 64), OctalDigit((c as int / 8) % 8), OctalDigit(c as int % 8)]
    else [c]
  }

  /** The escapes of all characters of `t`, concatenated. */
  function EscapeAll(t: string): (r: string)
    ensures IsAscii(r)
  {
    if t == [] then [] else
      var r := EscapeChar(t[0]) + EscapeAll(t[1..]);
      AsciiAppend(EscapeChar(t[0]), EscapeAll(t[1..]));
      r
  }

  /** The value of one to three octal digits. */
  function OctalValue(d: string): (v: int)
    requires |d| <= 3 && forall i | 0 <= i < |d| :: IsOctalDigit(d[i])
    ensures 0 <= v < 512
  {
    if |d| == 0 then 0
    else if |d| == 1 then DigitValue(d[0])
    else if |d| == 2 then DigitValue(d[0]) * 8 + DigitValue(d[1])
    else DigitValue(d[0]) * 64 + DigitValue(d[1]) * 8 + DigitValue(d[2])
  }

  function DigitValue(c: char): (v: int)
    requires IsOctalDigit(c)
    ensures 0 <= v < 8
  {
    c as int - 48
  }

  /** How many octal digits (at most three) start `s`. */
  function OctalRun(s: string): (n: nat)
    ensures n <= 3 && n <= |s|
    ensures forall i | 0 <= i < n :: IsOctalDigit(s[i])
  {
    if |s| == 0 || !IsOctalDigit(s[0]) then 0
    else if |s| == 1 || !IsOctalDigit(s[1]) then 1
    else if |s| == 2 || !IsOctalDigit(s[2]) then 2
    else 3
  }

  /**
   * How a PostScript interpreter reads the body of a literal string: `\n`,
   * `\r`, `\t`, `\b`, `\f`, `\\`, `\(`, `\)`, one to three octal digits
   * (high-order overflow ignored), a backslash before a line feed continues
   * the line, and before any other character it is dropped.
   */
  function Unescape(s: string): string
    decreases |s|
  {
    if |s| == 0 then []
    else if s[0] != '\\' then [s[0]] + Unescape(s[1..])
    else if |s| == 1 then []
    else if s[1] == 'n' then "\n" + Unescape(s[2..])
    else if s[1] == 'r' then "\r" + Unescape(s[2..])
    else if s[1] == 't' then "\t" + Unescape(s[2..])
    else if s[1] == 'b' then [BACKSPACE] + Unescape(s[2..])
    else if s[1] == 'f' then [FORMFEED] + Unescape(s[2..])
    else if IsOctalDigit(s[1]) then
      var n := OctalRun(s[1..]);
      [(OctalValue(s[1..1 + n]) % 256) as char] + Unescape(s[1 + n..])
    else if s[1] == '\n' then Unescape(s[2..])
    else [s[1]] + Unescape(s[2..])
  }

  lemma UnescapeSpecial(c: char, rest: string)
    requires IsSpecial(c)
    ensures Unescape(EscapeChar(c) + rest) == [c] + Unescape(rest)
  {
    var s := EscapeChar(c) + rest;
    assert s[0] == '\\' && s[1] == EscapeChar(c)[1] && s[2..] == rest;
  }

  lemma UnescapeOctal(c: char, rest: string)
    requires !IsSpecial(c) && (c as int < 32 || 127 < c as int <= 255)
    ensures Unescape(EscapeChar(c) + rest) == [c] + Unescape(rest)
  {
    var e := EscapeChar(c);
    var s := e + rest;
    assert s[0] == '\\' && s[1..4] == e[1..4] && s[4..] == rest;
    assert s[1..][..3] == e[1..4];
    assert OctalRun(s[1..]) == 3;
    assert OctalValue(s[1..4]) == c as int;
    assert Unescape(s) == [(OctalValue(s[1..4]) % 256) as char] + Unescape(s[4..]);
  }

  lemma UnescapePlain(c: char, rest: string)
    requires 32 <= c as int <= 127 && !IsSpecial(c)
    ensures Unescape(EscapeChar(c) + rest) == [c] + Unescape(rest)
  {
    var s := EscapeChar(c) + rest;
    assert s[0] == c && s[1..] == rest;
  }

  /** Reading the escape of a Latin-1 character gives back that character and leaves the rest of the string alone. */
  lemma UnescapeEscapeChar(c: char, rest: string)
    requires c as int <= 255
    ensures Unescape(EscapeChar(c) + rest) == [c] + Unescape(rest)
  {
    if IsSpecial(c) {
      UnescapeSpecial(c, rest);
    } else if c as int < 32 || c as int > 127 {
      UnescapeOctal(c, rest);
    } else {
      UnescapePlain(c, rest);
    }
  }

  /** Escaping is undone by the PostScript reader for every Latin-1 text. */
  lemma {:induction false} EscapeRoundTrip(t: string)
    requires forall i | 0 <= i < |t| :: t[i] as int <= 255
    ensures Unescape(EscapeAll(t)) == t
  {
    if t != [] {
      EscapeRoundTrip(t[1..]);
      UnescapeEscapeChar(t[0], EscapeAll(t[1..]));
      assert [t[0]] + t[1..] == t;
    }
  }

  /** Each character escapes to one to four characters. */
  lemma {:induction false} EscapeAllLength(t: string)
    ensures |t| <= |EscapeAll(t)| <= 4 * |t|
  {
    if t != [] {
      EscapeAllLength(t[1..]);
    }
  }

  /** Printable ASCII other than backslash and parentheses is copied verbatim. */
  predicate PlainLiteral(t: string)
  {
    t == [] || (32 <= t[0] as int <= 127 && !IsSpecial(t[0]) && PlainLiteral(t[1..]))
  }

  /** Text is plain when each of its characters is. */
  lemma {:induction false} PlainOfChars(t: string)
    requires forall i | 0 <= i < |t| :: 32 <= t[i] as int <= 127 && !IsSpecial(t[i])
    ensures PlainLiteral(t)
  {
    if t != [] {
      assert forall i | 0 <= i < |t[1..]| :: t[1..][i] == t[i + 1];
      PlainOfChars(t[1..]);
    }
  }

  lemma {:induction false} EscapeAllPlain(t: string)
    requires PlainLiteral(t)
    ensures EscapeAll(t) == t
  {
    if t != [] {
      EscapeAllPlain(t[1..]);
    }
  }

  lemma {:induction false} EscapeAllAppend(a: string, b: string)
    ensures EscapeAll(a + b) == EscapeAll(a) + EscapeAll(b)
  {
    if a != [] {
      assert (a + b)[1..] == a[1..] + b;
      EscapeAllAppend(a[1..], b);
    } else {
      assert a + b == b;
    }
  }

  // ---------------------------------------------------------------------
  // DSC strings and comments
  // ---------------------------------------------------------------------

  /** `convertStringToDSC(text, forceParentheses)` as a value; None is Java's null. */
  function DscText(text: Option<string>, forceParentheses: bool): string
  {
    match text
    case None => "()"
    case Some(t) =>
      if |t| == 0 then "()"
      else if ' ' in t || forceParentheses then "(" + EscapeAll(t) + ")"
      else EscapeAll(t)
  }

  /** Escaping text into a DSC comment value, with parentheses exactly when the text contains a space or they are forced. */
  lemma DscTextShape(t: string, forceParentheses: bool)
    requires |t| > 0
    ensures IsAscii(DscText(Some(t), forceParentheses))
    ensures ' ' in t || forceParentheses ==> DscText(Some(t), forceParentheses) == "(" + EscapeAll(t) + ")"
    ensures !(' ' in t || forceParentheses) ==> DscText(Some(t), forceParentheses) == EscapeAll(t)
    ensures DscText(None, forceParentheses) == DscText(Some([]), forceParentheses) == "()"
  {
    if ' ' in t || forceParentheses {
      AsciiLiteralIsAscii("(");
      AsciiLiteralIsAscii(")");
      AsciiAppend("(", EscapeAll(t));
      AsciiAppend("(" + EscapeAll(t), ")");
    }
  }

  /** `convertStringToDSC`: the escaping loop over the text. */
  method ConvertStringToDSC(text: Option<string>, forceParentheses: bool) returns (r: string)
    ensures r == DscText(text, forceParentheses)
  {
    if text.None? || |text.value| == 0 {
      return "()";
    }
    var t := text.value;
    var sb: string := [];
    var i := 0;
    while i < |t|
      invariant 0 <= i <= |t|
      invariant sb == EscapeAll(t[..i])
    {
      EscapeAllAppend(t[..i], [t[i]]);
      assert EscapeAll([t[i]]) == EscapeChar(t[i]) + EscapeAll([]);
      assert t[..i + 1] == t[..i] + [t[i]];
      sb := sb + EscapeChar(t[i]);
      i := i + 1;
    }
    assert t[..|t|] == t;
    if ' ' in t || forceParentheses {
      r := "(" + sb + ")";
    } else {
      r := sb;
    }
  }

  /** A parameter of a DSC comment, by its Java class. */
  datatype DscParam =
    | StrParam(s: string)               // String
    | AtEnd                              // DSCConstants.ATEND
    | DoubleParam(formatted: string)    // Double, formatted by formatDouble
    | NumberParam(repr: string)         // any other Number, by its toString
    | DateParam(formatted: string)      // Date, formatted as yyyy-MM-dd'T'HH:mm:ss
    | ResourceParam(spec: string)       // PSResource, by its resource specification
    | OtherParam(className: string)     // an object of any other class
    | NullParam                          // a null element

  datatype PSError =
    | IllegalArgument(message: string)  // IllegalArgumentException
    | NullPointer                        // NullPointerException
    | IllegalState(message: string)     // IllegalStateException

  /** The text one parameter contributes to a DSC comment. */
  function FormatParam(p: DscParam): (r: Result<string, PSError>)
    ensures r.Fail? <==> p.OtherParam? || p.NullParam?
    ensures p.StrParam? ==> r == Ok(DscText(Some(p.s), false))
  {
    match p
    case StrParam(s) => Ok(DscText(Some(s), false))
    case AtEnd => Ok("(atend)")
    case DoubleParam(f) => Ok(f)
    case NumberParam(repr) => Ok(repr)
    case DateParam(f) => Ok(DscText(Some(f), false))
    case ResourceParam(spec) => Ok(spec)
    case OtherParam(name) => Fail(IllegalArgument("Unsupported parameter type: " + name))
    case NullParam => Fail(NullPointer)
  }

  /** The parameters' texts joined by single spaces; the first parameter that cannot be formatted decides the error. */
  function JoinParams(ps: seq<DscParam>): (r: Result<string, PSError>)
    ensures r.Ok? <==> forall i | 0 <= i < |ps| :: FormatParam(ps[i]).Ok?
  {
    if |ps| == 0 then Ok([])
    else
      match JoinParams(ps[..|ps| - 1])
      case Fail(e) => Fail(e)
      case Ok(prefix) =>
        match FormatParam(ps[|ps| - 1])
        case Fail(e) => Fail(e)
        case Ok(last) => Ok(prefix + (if |ps| > 1 then " " else []) + last)
  }

  /** The line `writeDSCComment(name, params)` writes, without its line feed; None is a null array. */
  function DscLine(name: string, params: Option<seq<DscParam>>): Result<string, PSError>
  {
    if params.None? || |params.value| == 0 then Ok("%%" + name)
    else
      match JoinParams(params.value)
      case Fail(e) => Fail(e)
      case Ok(joined) => Ok("%%" + name + ": " + joined)
  }

  /** A single string parameter is written as its DSC text after `%%name: `. */
  lemma {:induction false} DscLineSingleString(name: string, s: string)
    ensures DscLine(name, Some([StrParam(s)])) == Ok("%%" + name + ": " + DscText(Some(s), false))
  {
    var ps := [StrParam(s)];
    assert ps[..|ps| - 1] == [];
    assert JoinParams(ps[..|ps| - 1]) == Ok([]);
    assert FormatParam(ps[|ps| - 1]) == Ok(DscText(Some(s), false));
    var e: string := [];
    assert e + e + DscText(Some(s), false) == DscText(Some(s), false);
    assert JoinParams(ps) == Ok(DscText(Some(s), false));
  }

  /** Parameters that are written as given (numbers, resources, doubles) are ASCII. */
  predicate PreformattedAscii(p: DscParam)
  {
    match p
    case DoubleParam(f) => IsAscii(f)
    case NumberParam(repr) => IsAscii(repr)
    case ResourceParam(spec) => IsAscii(spec)
    case _ => true
  }

  lemma FormatParamAscii(p: DscParam)
    requires PreformattedAscii(p) && FormatParam(p).Ok?
    ensures IsAscii(FormatParam(p).value)
  {
    match p
    case AtEnd => AtEndAscii();
    case _ =>
  }

  lemma AtEndAscii()
    ensures IsAscii("(atend)")
  {
    AsciiLiteralIsAscii("(atend)");
  }

  /** The comment line is ASCII when its name and the preformatted parameter texts are: strings and dates are escaped. */
  lemma {:induction false} DscLineAscii(name: string, ps: seq<DscParam>)
    requires IsAscii(name)
    requires forall i | 0 <= i < |ps| :: PreformattedAscii(ps[i])
    ensures DscLine(name, Some(ps)).Ok? ==> IsAscii(DscLine(name, Some(ps)).value)
  {
    AsciiLiteralIsAscii("%%");
    AsciiLiteralIsAscii(": ");
    if |ps| > 0 && JoinParams(ps).Ok? {
      JoinParamsAscii(ps);
    }
  }

  lemma {:induction false} JoinParamsAscii(ps: seq<DscParam>)
    requires forall i | 0 <= i < |ps| :: PreformattedAscii(ps[i])
    requires JoinParams(ps).Ok?
    ensures IsAscii(JoinParams(ps).value)
  {
    if |ps| > 0 {
      var init := ps[..|ps| - 1];
      assert forall i | 0 <= i < |init| :: init[i] == ps[i];
      JoinParamsAscii(init);
      FormatParamAscii(ps[|ps| - 1]);
    }
  }

  /** A parameter of plain printable text without spaces is written as it is. */
  lemma DscLinePlainString(name: string, t: string)
    requires PlainLiteral(t) && |t| > 0 && ' ' !in t
    ensures DscLine(name, Some([StrParam(t)])) == Ok("%%" + name + ": " + t)
  {
    DscLineSingleString(name, t);
    EscapeAllPlain(t);
  }

  lemma IdentityHIsPlain()
    ensures PlainLiteral(IDENTITY_H) && |IDENTITY_H| > 0 && ' ' !in IDENTITY_H
  {
    assert forall i | 0 <= i < |IDENTITY_H| :: 'a' <= IDENTITY_H[i] <= 'z' || 'A' <= IDENTITY_H[i] <= 'Z' || IDENTITY_H[i] == '-';
    PlainOfChars(IDENTITY_H);
  }

  /**
   * A PostScript graphics state. Its contents (colour, font, transforms, ...)
   * are not part of this model; a state is an opaque record.
   */
  datatype PSState = PSState(attributes: seq<int>)

  class PSGenerator {
    var output: seq<uint8>
    var commentsEnabled: bool
    var compactMode: bool
    /** The standard command map used in compact mode. */
    const commandMap: string -> string
    /** `new PSState(org, false)`: the copy pushed by `saveGraphicsState`. */
    const copyState: PSState -> PSState
    /** `new PSState()`. */
    const initialState: PSState
    /** The bytes of the Identity-H CMap resource. */
    const identityHCMap: seq<uint8>
    /** Saved states, the most recent first. */
    var graphicsStateStack: seq<PSState>
    var currentState: PSState
    var identityHEmbedded: bool

    constructor (commandMap: string -> string, copyState: PSState -> PSState, initialState: PSState, identityHCMap: seq<uint8>)
      ensures this.commandMap == commandMap && this.copyState == copyState
      ensures this.initialState == initialState && this.identityHCMap == identityHCMap
      ensures output == [] && commentsEnabled && compactMode
      ensures graphicsStateStack == [] && currentState == initialState && !identityHEmbedded
    {
      this.commandMap := commandMap;
      this.copyState := copyState;
      this.initialState := initialState;
      this.identityHCMap := identityHCMap;
      output := [];
      commentsEnabled := true;
      compactMode := true;
      graphicsStateStack := [];
      currentState := initialState;
      identityHEmbedded := false;
    }

    /** `mapCommand`: the short macro name in compact mode, the command itself otherwise. */
    function MapCommand(command: string): (r: string)
      reads this
      ensures !compactMode ==> r == command
      ensures compactMode ==> r == commandMap(command)
    {
      if compactMode then commandMap(command) else command
    }

    method Write(cmd: string)
      modifies this`output
      ensures output == old(output) + AsciiBytes(cmd)
    {
      output := output + AsciiBytes(cmd);
    }

    method Writeln(cmd: string)
      modifies this`output
      ensures output == old(output) + AsciiBytes(cmd) + [LF]
    {
      Write(cmd);
      output := output + [LF];
    }

    /** `commentln`: a line only when comments are enabled. */
    method Commentln(comment: string)
      modifies this`output
      ensures output == if commentsEnabled then old(output) + AsciiBytes(comment) + [LF] else old(output)
    {
      if commentsEnabled {
        Writeln(comment);
      }
    }

    /**
     * `writeDSCComment(name, params)`: `%%name`, then `: ` and the parameters
     * separated by spaces when there are any, then a line feed. A parameter
     * of an unsupported class raises before anything is written. The
     * overloads with no parameter and with one parameter are `params` None
     * and `Some([p])`.
     */
    method WriteDSCComment(name: string, params: Option<seq<DscParam>>) returns (r: Result<(), PSError>)
      modifies this`output
      ensures r.Ok? <==> DscLine(name, params).Ok?
      ensures r.Fail? ==> r.error == DscLine(name, params).error && output == old(output)
      ensures r.Ok? ==> output == old(output) + AsciiBytes(DscLine(name, params).value) + [LF]
    {
      var buffer := "%%" + name;
      if params.Some? && |params.value| > 0 {
        var joined := AppendParams(buffer + ": ", params.value);
        if joined.Fail? {
          return Fail(joined.error);
        }
        buffer := joined.value;
      }
      Writeln(buffer);
      r := Ok(());
    }

    /** `saveGraphicsState`: writes gsave, pushes the current state and continues with a copy of it. */
    method SaveGraphicsState()
      modifies this`output, this`graphicsStateStack, this`currentState
      ensures output == old(output) + AsciiBytes(MapCommand("gsave")) + [LF]
      ensures graphicsStateStack == [old(currentState)] + old(graphicsStateStack)
      ensures currentState == copyState(old(currentState))
    {
      Writeln(MapCommand("gsave"));
      var state := copyState(currentState);
      graphicsStateStack := [currentState] + graphicsStateStack;
      currentState := state;
    }

    /** `restoreGraphicsState`: pops the last saved state back; false and no output on an empty stack. */
    method RestoreGraphicsState() returns (restored: bool)
      modifies this`output, this`graphicsStateStack, this`currentState
      ensures restored <==> old(graphicsStateStack) != []
      ensures restored ==> currentState == old(graphicsStateStack)[0] && graphicsStateStack == old(graphicsStateStack)[1..]
      ensures restored ==> output == old(output) + AsciiBytes(MapCommand("grestore")) + [LF]
      ensures !restored ==> output == old(output) && currentState == old(currentState) && graphicsStateStack == []
    {
      if graphicsStateStack != [] {
        Writeln(MapCommand("grestore"));
        currentState := graphicsStateStack[0];
        graphicsStateStack := graphicsStateStack[1..];
        return true;
      }
      return false;
    }

    /** `resetGraphicsState`: a fresh state, or IllegalStateException while states are still saved. */
    method ResetGraphicsState() returns (r: Result<(), PSError>)
      modifies this`currentState
      ensures r.Ok? <==> graphicsStateStack == []
      ensures r.Ok? ==> currentState == initialState
      ensures r.Fail? ==> r.error.IllegalState? && currentState == old(currentState)
    {
      if graphicsStateStack != [] {
        return Fail(IllegalState("Graphics state stack should be empty at this point"));
      }
      currentState := initialState;
      return Ok(());
    }

    /** `showPage`: writes showpage, then resets the state (which raises if states are still saved). */
    method ShowPage() returns (r: Result<(), PSError>)
      modifies this`output, this`currentState
      ensures output == old(output) + AsciiBytes("showpage") + [LF]
      ensures r.Ok? <==> graphicsStateStack == []
      ensures r.Ok? ==> currentState == initialState
      ensures r.Fail? ==> r.error.IllegalState? && currentState == old(currentState)
    {
      Writeln("showpage");
      r := ResetGraphicsState();
    }

    /** `embedIdentityH`: the first call writes the CMap between BeginDocument and EndDocument and returns true; later calls write nothing and return false. */
    method EmbedIdentityH() returns (embedded: bool)
      modifies this`output, this`identityHEmbedded
      ensures embedded <==> !old(identityHEmbedded)
      ensures identityHEmbedded
      ensures !embedded ==> output == old(output)
      ensures embedded ==>
                output == old(output) + AsciiBytes("%%" + BEGIN_DOCUMENT + ": " + IDENTITY_H) + [LF]
                          + identityHCMap + AsciiBytes("%%" + END_DOCUMENT) + [LF]
    {
      if identityHEmbedded {
        return false;
      }
      IdentityHIsPlain();
      DscLinePlainString(BEGIN_DOCUMENT, IDENTITY_H);
      var _ := WriteDSCComment(BEGIN_DOCUMENT, Some([StrParam(IDENTITY_H)]));
      output := output + identityHCMap;
      var _ := WriteDSCComment(END_DOCUMENT, None);
      identityHEmbedded := true;
      return true;
    }
  }

  /**
   * The parameter loop of `writeDSCComment`: appends the parameters to the
   * buffer, a space before each but the first, or stops at the first one of
   * an unsupported class.
   */
  method AppendParams(head: string, ps: seq<DscParam>) returns (r: Result<string, PSError>)
    ensures r.Ok? <==> JoinParams(ps).Ok?
    ensures r.Fail? ==> r.error == JoinParams(ps).error
    ensures r.Ok? ==> r.value == head + JoinParams(ps).value
  {
    var buffer := head;
    var i := 0;
    while i < |ps|
      invariant 0 <= i <= |ps|
      invariant JoinParams(ps[..i]).Ok?
      invariant buffer == head + JoinParams(ps[..i]).value
    {
      JoinParamsStep(ps, i);
      ghost var joined := JoinParams(ps[..i]).value;
      var sep := if i > 0 then " " else "";
      buffer := buffer + sep;
      var piece := FormatParam(ps[i]);
      if piece.Fail? {
        PrefixFailure(ps, i + 1);
        return Fail(piece.error);
      }
      assert buffer + piece.value == head + (joined + sep + piece.value);
      buffer := buffer + piece.value;
      i := i + 1;
    }
    assert ps[..|ps|] == ps;
    r := Ok(buffer);
  }

  /** One more parameter extends the joined text by a space, unless it is the first, and its own text. */
  lemma JoinParamsStep(ps: seq<DscParam>, i: nat)
    requires i < |ps| && JoinParams(ps[..i]).Ok?
    ensures FormatParam(ps[i]).Fail? ==> JoinParams(ps[..i + 1]) == Fail(FormatParam(ps[i]).error)
    ensures FormatParam(ps[i]).Ok? ==>
              JoinParams(ps[..i + 1]) == Ok(JoinParams(ps[..i]).value + (if i > 0 then " " else "") + FormatParam(ps[i]).value)
  {
    assert ps[..i + 1][..i] == ps[..i];
  }

  /** A prefix that fails in its last parameter makes the whole list fail with that error. */
  lemma {:induction false} PrefixFailure(ps: seq<DscParam>, k: nat)
    requires 0 < k <= |ps| && JoinParams(ps[..k]).Fail?
    ensures JoinParams(ps) == Fail(JoinParams(ps[..k]).error)
    decreases |ps| - k
  {
    if k < |ps| {
      assert ps[..k + 1][..k] == ps[..k];
      PrefixFailure(ps, k + 1);
    } else {
      assert ps[..k] == ps;
    }
  }

  const BEGIN_DOCUMENT: string := "BeginDocument"
  const END_DOCUMENT: string := "EndDocument"
  const IDENTITY_H: string := "Identity-H"
}
