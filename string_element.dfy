/** StringElement: parsing a string token and rendering a string element. */
module StringElements {
  import opened Values
  import opened Errors
  import opened StringUtils

  const MISSING_QUOTE_MESSAGE: string := "Looks like a string, but is missing a closing quote."
  const BAD_ESCAPE_MESSAGE: string := "Looks like a string, but has an invalid escape sequence"

  /** `s.substr(1, s.length() - 2)`: the token without its first and last
      character. For a one-character token the length argument wraps around to
      npos and the substring from 1 is empty. */
  function Interior(s: string): (r: string)
    requires |s| >= 1
    ensures |s| >= 2 ==> s == [s[0]] + r + [s[|s| - 1]]
    ensures |s| == 1 ==> r == []
  {
    if |s| >= 2 then s[1..|s| - 1] else []
  }

  /** findImproperEscape of a whole token, with npos written out as the
      `size_t` it is; the exception then keeps it as `Location(SIZE_MAX)`. */
  function DefectLocation(s: string): nat {
    match ImproperEscape(s)
    case None => SIZE_MAX
    case Some(i) => i
  }

  /** StringElement::parse. The opening quote is not checked: the first
      character is dropped whatever it is (the element dispatcher only hands
      over tokens that start with a quote). */
  function ParseString(s: string): (r: Result<Element>)
    ensures r.Ok? <==> EndsWith(s, "\"") && ImproperEscape(Interior(s)) == None
    ensures r.Ok? ==> r.value == StringElement(Unescaped(Interior(s)))
    ensures !EndsWith(s, "\"") ==> r == Err(ParserError(MISSING_QUOTE_MESSAGE, s, Location(|s|)))
    ensures EndsWith(s, "\"") && r.Err? ==> r == Err(ParserError(BAD_ESCAPE_MESSAGE, s, Location(DefectLocation(s))))
  {
    if EndsWith(s, "\"") then
      if ImproperEscape(Interior(s)) == None then
        Ok(StringElement(Unescaped(Interior(s))))
      else
        Err(ParserError(BAD_ESCAPE_MESSAGE, s, Location(DefectLocation(s))))
    else
      Err(ParserError(MISSING_QUOTE_MESSAGE, s, Location(|s|)))
  }

  /** The rendering operator: the data escaped, between quotes. */
  function RenderString(data: string): (r: string)
    ensures |r| >= 2 && r[0] == '"' && r[|r| - 1] == '"'
  {
    "\"" + Escaped(data) + "\""
  }

  /** Parsing a rendered string element gives back the same data. */
  lemma ParseRenderString(data: string)
    ensures ParseString(RenderString(data)) == Ok(StringElement(data))
  {
    var r := RenderString(data);
    assert Interior(r) == Escaped(data);
    EscapedIsWellFormed(data);
    UnescapeEscape(data);
  }

  /** The converse: a quoted token without a raw newline that parses is the
      rendering of what it parses to. */
  lemma RenderParseString(s: string)
    requires |s| >= 2 && s[0] == '"' && '\n' !in s
    requires ParseString(s).Ok?
    ensures RenderString(ParseString(s).value.data) == s
  {
    var t := Interior(s);
    assert '\n' !in t by {
      forall j | 0 <= j < |t| ensures t[j] != '\n' {
        assert t[j] == s[j + 1];
      }
    }
    EscapeUnescape(t);
  }

  /** A bad escape in a token that starts with a quote is always reported at
      location 0: the location comes from the whole token, whose opening quote
      is itself a defect. */
  lemma BadEscapeReportedAtZero(s: string)
    requires |s| >= 1 && s[0] == '"'
    requires ParseString(s).Err?
    ensures ParseString(s).error.location == 0 || !EndsWith(s, "\"")
  {
  }

  /** The token `"bad string` lacks its closing quote; the caret is at its end. */
  lemma MissingClosingQuoteExample()
    ensures ParseString("\"bad string") == Err(ParserError(MISSING_QUOTE_MESSAGE, "\"bad string", 11))
  {
  }

  /** The first character is not checked, so a token such as `x\"` whose
      interior is a lone backslash, but which is well formed as a whole, has
      no defect to point at: the location is npos, which the exception keeps
      as 2^32 - 1. */
  lemma NposReportedExample(s: string)
    requires s == "x\\\""
    ensures ParseString(s) == Err(ParserError(BAD_ESCAPE_MESSAGE, s, UINT_MAX))
  {
    assert |s| == 3 && s[0] == 'x' && s[1] == '\\' && s[2] == '"';
    assert Interior(s) == "\\";
    assert s[1..][2..] == [];
    assert ImproperEscape(s[1..]) == None;
    NposLocation();
  }

  /** `"bad\string"` has an invalid escape and is reported at location 0. */
  lemma BadEscapeExample(s: string)
    requires s == "\"bad\\string\""
    ensures ParseString(s) == Err(ParserError(BAD_ESCAPE_MESSAGE, s, 0))
  {
    var t := Interior(s);
    assert |s| == 12 && t == s[1..11] && s[11..] == "\"";
    assert s[1] == 'b' && s[2] == 'a' && s[3] == 'd' && s[4] == '\\' && s[5] == 's';
    forall j | 0 <= j < 3 ensures t[j] != '\\' && t[j] != '"' {
      assert t[j] == s[j + 1];
    }
    assert t[3] == s[4] && t[4] == s[5];
    ImproperEscapeAfterPlain(t, 3);
  }

  /** Escaping turns the newline of `good<newline>string` into `\n`. */
  lemma EscapeExample(g: string)
    requires g == "good\nstring"
    ensures Escaped(g) == "good\\nstring"
  {
    EscapeAroundNewline(g, "good", "string");
  }

  lemma EscapeAroundNewline(g: string, a: string, b: string)
    requires g == a + "\n" + b
    requires forall j :: 0 <= j < |a| ==> a[j] != '"' && a[j] != '\n' && a[j] != '\\'
    requires forall j :: 0 <= j < |b| ==> b[j] != '"' && b[j] != '\n' && b[j] != '\\'
    ensures Escaped(g) == a + "\\n" + b
  {
    EscapedAppend(a + "\n", b);
    EscapedAppend(a, "\n");
    EscapedPlain(a);
    EscapedPlain(b);
    assert Escaped("\n") == "\\n" by { assert "\n"[1..] == []; }
  }

  lemma RenderExample(g: string)
    requires g == "good\nstring"
    ensures RenderString(g) == "\"good\\nstring\""
  {
    EscapeExample(g);
  }

  /** `"good\nstring"` holds a real newline. */
  lemma ValidStringExample()
    ensures ParseString("\"good\\nstring\"") == Ok(StringElement("good\nstring"))
  {
    RenderExample("good\nstring");
    RenderedTokenParses("\"good\\nstring\"", "good\nstring");
  }

  lemma RenderedTokenParses(t: string, data: string)
    requires t == RenderString(data)
    ensures ParseString(t) == Ok(StringElement(data))
  {
    ParseRenderString(data);
  }

  /** `""` is the empty string. */
  lemma EmptyStringExample()
    ensures ParseString("\"\"") == Ok(StringElement(""))
  {
    assert RenderString("") == "\"\"";
    ParseRenderString("");
  }
}
