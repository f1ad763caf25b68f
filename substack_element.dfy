/** SubstackElement: the quote- and depth-aware parser of substack literals
    and the renderer of substack elements.

    The parser scans the characters strictly between the first two and the
    last two characters of the token (the `<<` and `>>` are not checked). In
    the C++ source each top-level piece is handed to an unqualified `parse`,
    which inside SubstackElement::parse names SubstackElement::parse itself;
    the unit tests instead expect a general element parser (a number and a
    string inside a substack). The model follows the tests: the element parser
    is a parameter, `elemParse`, applied to each trimmed piece. */
module SubstackElements {
  import opened Values
  import opened Errors
  import opened StringUtils
  import opened StringElements
  import opened Stacks

  const SUBSTACK_BEGIN: string := "<< "
  const SUBSTACK_END: string := " >>"
  const SUBSTACK_SEPARATOR: string := ", "
  const SUBSTACK_EMPTY: string := "<< (empty) >>"
  const EXTRA_CLOSE_MESSAGE: string := "Missing at least one matching opening substack delimiter."

  /** The decimal digit for d. */
  function DigitChar(d: nat): char
    requires d < 10
  {
    ('0' as int + d) as char
  }

  predicate IsDigit(c: char) {
    '0' <= c <= '9'
  }

  /** The number a string of decimal digits denotes, most significant first. */
  function DigitsValue(s: string): nat
    requires forall k :: 0 <= k < |s| ==> IsDigit(s[k])
  {
    if s == [] then 0
    else
      assert IsDigit(s[|s| - 1]);
      DigitsValue(s[..|s| - 1]) * 10 + (s[|s| - 1] as int - '0' as int)
  }

  /** std::to_string of a non-negative number: decimal digits without a
      leading zero (except for 0 itself). */
  function NatToString(n: nat): (r: string)
    ensures |r| >= 1
    ensures forall k :: 0 <= k < |r| ==> IsDigit(r[k])
    ensures r[0] == '0' ==> n == 0
    decreases n
  {
    if n < 10 then [DigitChar(n)] else NatToString(n / 10) + [DigitChar(n % 10)]
  }

  /** The digits read back to the number: NatToString is injective, so the
      count in a "missing delimiters" message identifies the depth. */
  lemma {:induction false} NatToStringValue(n: nat)
    ensures DigitsValue(NatToString(n)) == n
    decreases n
  {
    var r := NatToString(n);
    if n >= 10 {
      NatToStringValue(n / 10);
      assert r[..|r| - 1] == NatToString(n / 10);
    }
  }

  /** "Missing N closing substack delimiter(s)." */
  function MissingMessage(level: nat): string {
    "Missing " + NatToString(level) + " closing substack delimiter" + (if level == 1 then "" else "s") + "."
  }

  // ---------------------------------------------------------------------
  // The scan

  /** The scanner's state: the four variables of the loop plus the trimmed
      pieces completed so far; or the stop at an unbalanced `>>`, with the
      location the parser reports and the pieces completed before it. */
  datatype Scan =
    | Scanning(parseLevel: int, inString: bool, lastChar: char, accumulator: string, pieces: seq<string>)
    | Unbalanced(location: nat, pieces: seq<string>)

  const INITIAL_SCAN: Scan := Scanning(0, false, '\0', "", [])

  /** One iteration of the loop on the character c at index i; the branches
      are tried in the source's order. */
  function Step(st: Scan, c: char, i: nat): (r: Scan)
    requires st.Scanning? && i >= 1
  {
    var acc := st.accumulator + [c];
    if !st.inString && c == ',' && st.parseLevel == 0 then
      // the piece, minus the comma, is trimmed and handed to the element parser
      Scanning(st.parseLevel, st.inString, c, [], st.pieces + [Trimmed(st.accumulator)])
    else if c == '"' && st.lastChar != '\\' then
      Scanning(st.parseLevel, !st.inString, c, acc, st.pieces)
    else if !st.inString && c == '<' && st.lastChar == '<' then
      Scanning(st.parseLevel + 1, st.inString, c, acc, st.pieces)
    else if !st.inString && c == '>' && st.lastChar == '>' then
      if st.parseLevel - 1 < 0 then Unbalanced(i - 1, st.pieces)
      else Scanning(st.parseLevel - 1, st.inString, c, acc, st.pieces)
    else
      Scanning(st.parseLevel, st.inString, c, acc, st.pieces)
  }

  /** What one step can do: record c as the last character, move the depth by
      at most one, complete at most the accumulated piece, toggle the string
      state only on a quote; it stops exactly at a `>>` outside a string at
      depth 0, reported at the first `>`, with the pieces as they were. */
  lemma StepShape(st: Scan, c: char, i: nat)
    requires st.Scanning? && i >= 1
    ensures var r := Step(st, c, i);
      && (r.Scanning? ==> r.lastChar == c && st.parseLevel - 1 <= r.parseLevel <= st.parseLevel + 1)
      && (r.Scanning? ==> r.pieces == st.pieces || r.pieces == st.pieces + [Trimmed(st.accumulator)])
      && (r.Scanning? && r.inString != st.inString ==> c == '"')
      && (r.Unbalanced? <==> !st.inString && c == '>' && st.lastChar == '>' && st.parseLevel <= 0)
      && (r.Unbalanced? ==> r.location == i - 1 && r.pieces == st.pieces)
  {
  }

  /** The scan from index i to the end of the interior (index |s| - 2). */
  function ScanFrom(s: string, i: nat, st: Scan): (r: Scan)
    requires 2 <= i <= |s| - 2 && st.Scanning?
    decreases |s| - i
  {
    if i == |s| - 2 then st
    else
      var next := Step(st, s[i], i);
      if next.Unbalanced? then next else ScanFrom(s, i + 1, next)
  }

  function Split(s: string): Scan
    requires |s| >= 4
  {
    ScanFrom(s, 2, INITIAL_SCAN)
  }

  /** The pieces parsed left to right; the first failure is the result. */
  function ParseAll(pieces: seq<string>, elemParse: string -> Result<Element>): Result<seq<Element>>
  {
    if pieces == [] then Ok([])
    else match elemParse(pieces[0])
      case Err(e) => Err(e)
      case Ok(x) => match ParseAll(pieces[1..], elemParse)
        case Err(e) => Err(e)
        case Ok(xs) => Ok([x] + xs)
  }

  /** What SubstackElement::parse computes, stated on the scan: a piece that
      fails to parse stops everything (it was parsed before any later defect
      was reached), then an unbalanced `>>`, then unclosed `<<`s; a blank
      leftover is dropped, any other leftover is the last element. */
  function ParseSubstackSpec(s: string, elemParse: string -> Result<Element>): Result<Element>
    requires |s| >= 4
  {
    var sc := Split(s);
    match ParseAll(sc.pieces, elemParse)
    case Err(e) => Err(e)
    case Ok(elems) =>
      if sc.Unbalanced? then Err(ParserError(EXTRA_CLOSE_MESSAGE, s, Location(sc.location)))
      else if sc.parseLevel != 0 then
        Err(ParserError(MissingMessage(if sc.parseLevel < 0 then 0 else sc.parseLevel), s, Location(|s| - 1)))
      else if Trimmed(sc.accumulator) == [] then Ok(SubstackElement(elems))
      else match elemParse(Trimmed(sc.accumulator))
        case Err(e) => Err(e)
        case Ok(x) => Ok(SubstackElement(elems + [x]))
  }

  // ---------------------------------------------------------------------
  // Facts about the scan

  /** The link between the scanner state at index i and the token: lastChar is
      the previous interior character, the depth is never negative, and there
      are fewer pieces than characters scanned. */
  predicate ConsistentAt(s: string, i: nat, st: Scan)
    requires 2 <= i <= |s|
  {
    && st.Scanning?
    && st.lastChar == (if i == 2 then '\0' else s[i - 1])
    && st.parseLevel >= 0
    && |st.pieces| <= i - 2
  }

  lemma {:induction false} ScanFromFacts(s: string, i: nat, st: Scan)
    requires 2 <= i <= |s| - 2 && ConsistentAt(s, i, st)
    ensures st.pieces <= ScanFrom(s, i, st).pieces
    ensures ScanFrom(s, i, st).Scanning? ==> ScanFrom(s, i, st).parseLevel >= 0
    ensures ScanFrom(s, i, st).Unbalanced? ==>
      var k := ScanFrom(s, i, st).location;
      2 <= k && i <= k + 1 && k + 2 < |s| - 1 && s[k] == '>' && s[k + 1] == '>'
    decreases |s| - i
  {
    if i < |s| - 2 {
      var next := Step(st, s[i], i);
      if next.Scanning? {
        ScanFromFacts(s, i + 1, next);
      } else {
        assert st.lastChar == '>';
        assert i != 2;
      }
    }
  }

  /** One step of the scan keeps the state consistent with the token. */
  lemma StepAdvance(s: string, i: nat, st: Scan)
    requires 2 <= i < |s| - 2 && ConsistentAt(s, i, st)
    ensures var next := Step(st, s[i], i);
      && ScanFrom(s, i, st) == (if next.Unbalanced? then next else ScanFrom(s, i + 1, next))
      && (next.Scanning? ==> ConsistentAt(s, i + 1, next))
  {
  }

  lemma ParseAllPrefixFails(a: seq<string>, b: seq<string>, elemParse: string -> Result<Element>)
    requires ParseAll(a, elemParse).Err?
    ensures ParseAll(a + b, elemParse) == ParseAll(a, elemParse)
  {
    if elemParse(a[0]).Ok? {
      assert (a + b)[1..] == a[1..] + b;
      ParseAllPrefixFails(a[1..], b, elemParse);
    }
  }

  lemma ParseAllAppend(a: seq<string>, x: string, elemParse: string -> Result<Element>)
    requires ParseAll(a, elemParse).Ok?
    ensures ParseAll(a + [x], elemParse) ==
      match elemParse(x)
      case Err(e) => Err(e)
      case Ok(v) => Ok(ParseAll(a, elemParse).value + [v])
  {
    if a != [] {
      assert (a + [x])[0] == a[0];
      assert (a + [x])[1..] == a[1..] + [x];
      ParseAllAppend(a[1..], x, elemParse);
      var x0, xs := elemParse(a[0]).value, ParseAll(a[1..], elemParse).value;
      match elemParse(x)
      case Err(e) =>
      case Ok(v) => assert [x0] + (xs + [v]) == ([x0] + xs) + [v];
    } else {
      assert [x][1..] == [];
      match elemParse(x)
      case Err(e) =>
      case Ok(v) => assert [v] + [] == [] + [v];
    }
  }

  /** ParseAll succeeds exactly when every piece parses, giving the pieces'
      elements in order; otherwise it reports the first piece's failure. */
  lemma {:induction false} ParseAllMeaning(pieces: seq<string>, elemParse: string -> Result<Element>)
    ensures ParseAll(pieces, elemParse).Ok? <==> forall k :: 0 <= k < |pieces| ==> elemParse(pieces[k]).Ok?
    ensures ParseAll(pieces, elemParse).Ok? ==>
      var es := ParseAll(pieces, elemParse).value;
      |es| == |pieces| && forall k :: 0 <= k < |pieces| ==> elemParse(pieces[k]) == Ok(es[k])
    ensures ParseAll(pieces, elemParse).Err? ==>
      exists k :: 0 <= k < |pieces| && elemParse(pieces[k]).Err?
        && ParseAll(pieces, elemParse).error == elemParse(pieces[k]).error
        && forall j :: 0 <= j < k ==> elemParse(pieces[j]).Ok?
  {
    if pieces != [] {
      ParseAllMeaning(pieces[1..], elemParse);
      if elemParse(pieces[0]).Ok? {
        if ParseAll(pieces[1..], elemParse).Err? {
          var k :| 0 <= k < |pieces[1..]| && elemParse(pieces[1..][k]).Err?
            && ParseAll(pieces[1..], elemParse).error == elemParse(pieces[1..][k]).error
            && forall j :: 0 <= j < k ==> elemParse(pieces[1..][j]).Ok?;
          assert elemParse(pieces[k + 1]).Err?;
          forall j | 0 <= j < k + 1 ensures elemParse(pieces[j]).Ok? {
            if j > 0 { assert pieces[j] == pieces[1..][j - 1]; }
          }
        } else {
          forall k | 0 <= k < |pieces| ensures elemParse(pieces[k]).Ok? {
            if k > 0 { assert pieces[k] == pieces[1..][k - 1]; }
          }
        }
      } else {
        assert elemParse(pieces[0]).Err?;
      }
    }
  }

  /** A piece that fails to parse at index i decides the whole parse. */
  lemma CommaFailure(s: string, i: nat, st: Scan, elemParse: string -> Result<Element>)
    requires 2 <= i < |s| - 2 && ConsistentAt(s, i, st)
    requires ScanFrom(s, i, st) == Split(s)
    requires !st.inString && s[i] == ',' && st.parseLevel == 0
    requires ParseAll(st.pieces, elemParse).Ok?
    requires elemParse(Trimmed(st.accumulator)).Err?
    ensures ParseSubstackSpec(s, elemParse) == Err(elemParse(Trimmed(st.accumulator)).error)
  {
    var next := Step(st, s[i], i);
    StepAdvance(s, i, st);
    ScanFromFacts(s, i + 1, next);
    var all := Split(s).pieces;
    ParseAllAppend(st.pieces, Trimmed(st.accumulator), elemParse);
    ParseAllPrefixFails(next.pieces, all[|next.pieces|..], elemParse);
    assert next.pieces + all[|next.pieces|..] == all;
  }

  // ---------------------------------------------------------------------
  // The parser

  /** The result when the scan stops at an unbalanced `>>` after pieces that
      all parse. */
  lemma SpecWhenUnbalanced(s: string, parsed: seq<Element>, elemParse: string -> Result<Element>)
    requires |s| >= 4 && Split(s).Unbalanced? && ParseAll(Split(s).pieces, elemParse) == Ok(parsed)
    ensures ParseSubstackSpec(s, elemParse) == Err(ParserError(EXTRA_CLOSE_MESSAGE, s, Location(Split(s).location)))
  {
  }

  /** The result when the scan runs to the end after pieces that all parse. */
  lemma SpecAtEnd(s: string, parsed: seq<Element>, elemParse: string -> Result<Element>)
    requires |s| >= 4 && Split(s).Scanning? && Split(s).parseLevel >= 0
    requires ParseAll(Split(s).pieces, elemParse) == Ok(parsed)
    ensures var sc := Split(s); var rest := Trimmed(sc.accumulator);
      ParseSubstackSpec(s, elemParse)
      == if sc.parseLevel != 0 then Err(ParserError(MissingMessage(sc.parseLevel), s, Location(|s| - 1)))
         else if rest == [] then Ok(SubstackElement(parsed))
         else if elemParse(rest).Err? then Err(elemParse(rest).error)
         else Ok(SubstackElement(parsed + [elemParse(rest).value]))
  {
  }

  /** A piece completed at a top-level comma: it is trimmed and parsed, and
      its element is pushed onto the buffer, which holds the elements parsed
      so far from the last one down. */
  method CompletePiece(buffer: Stack, accumulator: string, elemParse: string -> Result<Element>,
                       ghost pieces: seq<string>, ghost parsed: seq<Element>) returns (e: Result<Element>)
    requires buffer.Valid() && buffer.limit == SIZE_MAX && buffer.elems == Reversed(parsed)
    requires |parsed| == |pieces| < SIZE_MAX && ParseAll(pieces, elemParse) == Ok(parsed)
    modifies buffer
    ensures e == elemParse(Trimmed(accumulator))
    ensures e.Err? ==> ParseAll(pieces + [Trimmed(accumulator)], elemParse) == Err(e.error)
    ensures e.Ok? ==> ParseAll(pieces + [Trimmed(accumulator)], elemParse) == Ok(parsed + [e.value])
    ensures e.Ok? ==> buffer.Valid() && buffer.limit == SIZE_MAX && buffer.elems == Reversed(parsed + [e.value])
  {
    var piece := Trim(accumulator);
    e := elemParse(piece);
    ParseAllAppend(pieces, piece, elemParse);
    if e.Ok? {
      var pushed := buffer.Push(e.value);
      assert pushed.Pass?;
      ReversedAppend(parsed, [e.value]);
    }
  }

  /** SubstackElement::parse. The pieces are pushed onto a default Stack as
      they are parsed and the stack is reversed at the end, so that reading
      the substack from its top gives the elements in source order. A string
      never exceeds max_size, so the buffer's limit is never reached. */
  method ParseSubstack(s: string, elemParse: string -> Result<Element>) returns (r: Result<Element>)
    requires 4 <= |s| <= SIZE_MAX
    ensures r == ParseSubstackSpec(s, elemParse)
  {
    var parseLevel: int := 0;
    var inString := false;
    var accumulator: string := "";
    var lastChar: char := '\0';
    var buffer := new Stack();
    ghost var pieces: seq<string> := [];
    ghost var parsed: seq<Element> := [];

    var i: nat := 2;
    ghost var st := INITIAL_SCAN;
    while i < |s| - 2
      invariant 2 <= i <= |s| - 2
      invariant buffer.Valid() && buffer.limit == SIZE_MAX
      invariant st == Scanning(parseLevel, inString, lastChar, accumulator, pieces)
      invariant ConsistentAt(s, i, st) && ScanFrom(s, i, st) == Split(s)
      invariant ParseAll(pieces, elemParse) == Ok(parsed)
      invariant buffer.elems == Reversed(parsed) && |parsed| == |pieces|
    {
      ghost var next := Step(st, s[i], i);
      StepAdvance(s, i, st);
      accumulator := accumulator + [s[i]];
      if !inString && s[i] == ',' && parseLevel == 0 {
        accumulator := accumulator[..|accumulator| - 1];   // the comma is not part of the piece
        assert accumulator == st.accumulator;
        var e := CompletePiece(buffer, accumulator, elemParse, pieces, parsed);
        if e.Err? {
          CommaFailure(s, i, st, elemParse);
          return Err(e.error);
        }
        pieces := pieces + [Trimmed(accumulator)];
        parsed := parsed + [e.value];
        accumulator := "";
      } else if s[i] == '"' && lastChar != '\\' {
        inString := !inString;
      } else if !inString && s[i] == '<' && lastChar == '<' {
        parseLevel := parseLevel + 1;
      } else if !inString && s[i] == '>' && lastChar == '>' {
        parseLevel := parseLevel - 1;
        if parseLevel < 0 {
          SpecWhenUnbalanced(s, parsed, elemParse);
          return Err(ParserError(EXTRA_CLOSE_MESSAGE, s, Location(i - 1)));
        }
      }
      lastChar := s[i];
      st := next;
      i := i + 1;
    }

    r := FinishSubstack(s, buffer, parseLevel, accumulator, elemParse, parsed);
  }

  /** The end of SubstackElement::parse, once the scan has run to the end:
      unclosed `<<`s are reported, a non-blank leftover becomes the last
      element (a blank one, as after a trailing comma or in `<< >>`, is
      dropped), and the buffer is reversed into the substack. */
  method FinishSubstack(s: string, buffer: Stack, parseLevel: int, accumulator: string,
                        elemParse: string -> Result<Element>, ghost parsed: seq<Element>) returns (r: Result<Element>)
    requires |s| >= 4 && Split(s).Scanning? && Split(s).parseLevel == parseLevel >= 0
    requires Split(s).accumulator == accumulator && ParseAll(Split(s).pieces, elemParse) == Ok(parsed)
    requires buffer.Valid() && buffer.limit == SIZE_MAX && buffer.elems == Reversed(parsed) && |parsed| < SIZE_MAX
    modifies buffer
    ensures r == ParseSubstackSpec(s, elemParse)
  {
    SpecAtEnd(s, parsed, elemParse);
    if parseLevel != 0 {
      return Err(ParserError(MissingMessage(parseLevel), s, Location(|s| - 1)));
    }
    var rest := Trim(accumulator);
    ghost var all := parsed;
    if rest != "" {
      var e := elemParse(rest);
      if e.Err? {
        return Err(e.error);
      }
      var pushed := buffer.Push(e.value);
      assert pushed.Pass?;
      ReversedAppend(parsed, [e.value]);
      all := parsed + [e.value];
    }
    buffer.Reverse();
    ReversedInvolution(all);
    r := Ok(SubstackElement(buffer.elems));
  }

  // ---------------------------------------------------------------------
  // What the parser promises

  /** An unbalanced `>>` is reported at the first of its two characters, which
      lies inside the part of the token that is scanned. */
  lemma UnbalancedLocation(s: string, elemParse: string -> Result<Element>)
    requires |s| >= 4 && Split(s).Unbalanced?
    ensures var k := Split(s).location;
      2 <= k && k + 2 < |s| - 1 && s[k] == '>' && s[k + 1] == '>'
  {
    ScanFromFacts(s, 2, INITIAL_SCAN);
  }

  /** A successful parse holds, in source order, the elements of the top-level
      pieces, and then the element of the non-blank leftover if there is one;
      it succeeds only on a balanced token. */
  lemma ParseSubstackOk(s: string, elemParse: string -> Result<Element>)
    requires |s| >= 4 && ParseSubstackSpec(s, elemParse).Ok?
    ensures Split(s).Scanning? && Split(s).parseLevel == 0
    ensures var sc, items := Split(s), ParseSubstackSpec(s, elemParse).value.items;
      && |items| == |sc.pieces| + (if Trimmed(sc.accumulator) == [] then 0 else 1)
      && (forall k :: 0 <= k < |sc.pieces| ==> elemParse(sc.pieces[k]) == Ok(items[k]))
      && (Trimmed(sc.accumulator) != [] ==> elemParse(Trimmed(sc.accumulator)) == Ok(items[|items| - 1]))
  {
    ParseAllMeaning(Split(s).pieces, elemParse);
  }

  /** Piece k is the first one the element parser rejects. */
  predicate FirstFailingPiece(pieces: seq<string>, k: int, elemParse: string -> Result<Element>) {
    0 <= k < |pieces| && elemParse(pieces[k]).Err? && forall j :: 0 <= j < k ==> elemParse(pieces[j]).Ok?
  }

  /** The parse fails with a piece's own error exactly when some top-level
      piece fails to parse; the first such piece decides the error. */
  lemma PieceFailureDecides(s: string, elemParse: string -> Result<Element>)
    requires |s| >= 4
    requires exists k :: 0 <= k < |Split(s).pieces| && elemParse(Split(s).pieces[k]).Err?
    ensures exists k :: (FirstFailingPiece(Split(s).pieces, k, elemParse)
      && ParseSubstackSpec(s, elemParse) == Err(elemParse(Split(s).pieces[k]).error))
  {
    ParseAllMeaning(Split(s).pieces, elemParse);
  }

  /** The character before index k, as the scanner's lastChar holds it. */
  function PrevChar(s: string, k: nat): char
    requires 2 <= k <= |s|
  {
    if k == 2 then '\0' else s[k - 1]
  }

  /** A character that the scan only accumulates: inside a string anything but
      an unescaped quote, outside one anything but `,`, `"`, `<` and `>`. */
  predicate Quiet(inString: bool, c: char, prev: char) {
    if inString then c != '"' || prev == '\\' else c != ',' && c != '"' && c != '<' && c != '>'
  }

  /** Over a run of quiet characters the scan only accumulates them. */
  lemma {:induction false} ScanQuiet(s: string, i: nat, j: nat, st: Scan)
    requires 2 <= i < j <= |s| - 2 && ConsistentAt(s, i, st)
    requires forall k :: i <= k < j ==> Quiet(st.inString, s[k], PrevChar(s, k))
    ensures ScanFrom(s, i, st)
      == ScanFrom(s, j, Scanning(st.parseLevel, st.inString, s[j - 1], st.accumulator + s[i..j], st.pieces))
    decreases j - i
  {
    StepAdvance(s, i, st);
    var next := Step(st, s[i], i);
    assert Quiet(st.inString, s[i], PrevChar(s, i));
    assert next == Scanning(st.parseLevel, st.inString, s[i], st.accumulator + [s[i]], st.pieces);
    if i + 1 < j {
      ScanQuiet(s, i + 1, j, next);
      assert st.accumulator + [s[i]] + s[i + 1..j] == st.accumulator + s[i..j];
    } else {
      assert s[i..j] == [s[i]];
    }
  }

  /** The string held by the unit test's regular substack: `>>"string"<<`. */
  const QUOTED_DATA: string := ">>" + "\"" + "string" + "\"" + "<<"

  /** Its token, `">>\"string\"<<"`. */
  const QUOTED_TOKEN: string := "\"" + ">>" + "\\\"" + "string" + "\\\"" + "<<" + "\""

  /** The unit test's regular substack `<< 1, ">>\"string\"<<">>`: a number and
      then a string holding `>>`, escaped quotes and `<<`, none of which
      disturbs the scan. */
  lemma RegularSubstackExample(s: string, token: string, elemParse: string -> Result<Element>)
    requires token == QUOTED_TOKEN && s == "<< 1, " + token + ">>"
    requires elemParse("1") == Ok(NumberElement(1.0, true))
    requires elemParse(token) == ParseString(token)
    ensures ParseSubstackSpec(s, elemParse)
      == Ok(SubstackElement([NumberElement(1.0, true), StringElement(QUOTED_DATA)]))
  {
    QuotedTokenRenders(token, QUOTED_DATA);
    RegularSubstackScan(s, token);
    RegularSubstackParse(s, token, QUOTED_DATA, "1", NumberElement(1.0, true), elemParse);
  }

  /** The token is the rendering of the data. */
  lemma QuotedTokenRenders(token: string, data: string)
    requires token == QUOTED_TOKEN && data == QUOTED_DATA
    ensures token == RenderString(data)
  {
    EscapeAroundQuotes(data, ">>", "string", "<<");
  }

  /** A scan that ends with one completed piece and a leftover token. */
  lemma RegularSubstackParse(s: string, token: string, data: string, piece: string, x: Element,
                             elemParse: string -> Result<Element>)
    requires |s| >= 4 && Split(s) == Scanning(0, false, '"', [' '] + token, [piece])
    requires token == RenderString(data)
    requires elemParse(piece) == Ok(x)
    requires elemParse(token) == ParseString(token)
    ensures ParseSubstackSpec(s, elemParse) == Ok(SubstackElement([x, StringElement(data)]))
  {
    SinglePiece(piece, x, elemParse);
    SpecAtEnd(s, [x], elemParse);
    TrimLeadingBlank(token);
    RenderedTokenParses(token, data);
    assert Trimmed(Split(s).accumulator) == token != [];
    assert [x] + [StringElement(data)] == [x, StringElement(data)];
  }

  lemma SinglePiece(piece: string, x: Element, elemParse: string -> Result<Element>)
    requires elemParse(piece) == Ok(x)
    ensures ParseAll([piece], elemParse) == Ok([x])
  {
    assert [piece][0] == piece && [piece][1..] == [];
    assert [x] + [] == [x];
  }

  lemma RegularSubstackScan(s: string, token: string)
    requires token == QUOTED_TOKEN && s == "<< 1, " + token + ">>"
    ensures |s| >= 4 && Split(s) == Scanning(0, false, '"', [' '] + token, ["1"])
  {
    assert |token| == 16 && |s| == 24;
    assert s[2] == ' ' && s[3] == '1' && s[4] == ',' && s[5] == ' ' && s[6] == '"';
    RegularScanHead(s);
    assert s[6..22] == token;
    QuotedTokenQuiet(token);
    forall k | 7 <= k < 21 ensures Quiet(true, s[k], PrevChar(s, k)) {
      assert s[k] == token[k - 6] && s[k - 1] == token[k - 7];
    }
    assert s[21] == token[15] && s[20] == token[14];
    RegularScanTail(s);
    assert " \"" + s[7..22] == [' '] + s[6..22];
  }

  /** Up to the string's opening quote: the comma completes the piece `1` and
      the quote enters the string. */
  lemma RegularScanHead(s: string)
    requires |s| >= 9 && s[2] == ' ' && s[3] == '1' && s[4] == ',' && s[5] == ' ' && s[6] == '"'
    ensures Split(s) == ScanFrom(s, 7, Scanning(0, true, '"', " \"", ["1"]))
  {
    RegularScanPiece(s);
    RegularScanQuote(s);
  }

  /** The blank and the digit accumulate; the comma completes the piece `1`. */
  lemma RegularScanPiece(s: string)
    requires |s| >= 9 && s[2] == ' ' && s[3] == '1' && s[4] == ','
    ensures Split(s) == ScanFrom(s, 5, Scanning(0, false, ',', [], ["1"]))
  {
    ScanQuiet(s, 2, 4, INITIAL_SCAN);
    var st4 := Scanning(0, false, s[3], [] + s[2..4], []);
    StepAdvance(s, 4, st4);
    assert [] + s[2..4] == [' ', '1'];
    BlankThenChar('1');
    assert [] + ["1"] == ["1"];
  }

  /** After the comma, the blank accumulates and the quote enters the string. */
  lemma RegularScanQuote(s: string)
    requires |s| >= 9 && s[4] == ',' && s[5] == ' ' && s[6] == '"'
    ensures ScanFrom(s, 5, Scanning(0, false, ',', [], ["1"]))
      == ScanFrom(s, 7, Scanning(0, true, '"', " \"", ["1"]))
  {
    var st5 := Scanning(0, false, ',', [], ["1"]);
    ScanQuiet(s, 5, 6, st5);
    var st6 := Scanning(0, false, s[5], [] + s[5..6], ["1"]);
    StepAdvance(s, 6, st6);
    assert [] + s[5..6] + [s[6]] == " \"";
  }

  /** Through the string: when everything up to its closing quote at index 21
      is inert inside a string, only that quote changes the scan. */
  lemma RegularScanTail(s: string)
    requires |s| == 24 && s[6] == '"' && s[21] == '"' && s[20] != '\\'
    requires forall k :: 7 <= k < 21 ==> Quiet(true, s[k], PrevChar(s, k))
    ensures ScanFrom(s, 7, Scanning(0, true, '"', " \"", ["1"]))
      == Scanning(0, false, '"', " \"" + s[7..22], ["1"])
  {
    var st7 := Scanning(0, true, '"', " \"", ["1"]);
    ScanQuiet(s, 7, 21, st7);
    var st21 := Scanning(0, true, s[20], st7.accumulator + s[7..21], ["1"]);
    StepAdvance(s, 21, st21);
    assert st21.accumulator + [s[21]] == " \"" + s[7..22];
  }

  /** A blank and then one other character trim to that character. */
  lemma BlankThenChar(c: char)
    requires !IsWhitespace(c)
    ensures Trimmed([' ', c]) == [c]
  {
    assert [' ', c][1..] == [c];
    assert TrimLeft([c]) == [c];
    assert TrimLeft([' ', c]) == [c];
    assert TrimRight([c]) == [c];
  }

  /** Inside the quoted token only the last quote is unescaped. */
  lemma QuotedTokenQuiet(token: string)
    requires token == QUOTED_TOKEN
    ensures |token| == 16 && forall k :: 1 <= k < 15 ==> Quiet(true, token[k], token[k - 1])
  {
  }

  /** One blank before a token that starts and ends with a quote is trimmed away. */
  lemma TrimLeadingBlank(t: string)
    requires |t| >= 2 && t[0] == '"' && t[|t| - 1] == '"'
    ensures Trimmed([' '] + t) == t
  {
    assert ([' '] + t)[1..] == t;
    assert !IsWhitespace('"');
    assert TrimLeft([' '] + t) == TrimLeft(t) == t;
    assert TrimRight(t) == t;
  }

  lemma EscapeAroundQuotes(g: string, a: string, b: string, c: string)
    requires g == a + "\"" + b + "\"" + c
    requires forall j :: 0 <= j < |a| ==> a[j] != '"' && a[j] != '\n' && a[j] != '\\'
    requires forall j :: 0 <= j < |b| ==> b[j] != '"' && b[j] != '\n' && b[j] != '\\'
    requires forall j :: 0 <= j < |c| ==> c[j] != '"' && c[j] != '\n' && c[j] != '\\'
    ensures Escaped(g) == a + "\\\"" + b + "\\\"" + c
  {
    EscapedAppend(a + "\"" + b + "\"", c);
    EscapedAppend(a + "\"" + b, "\"");
    EscapedAppend(a + "\"", b);
    EscapedAppend(a, "\"");
    EscapedPlain(a);
    EscapedPlain(b);
    EscapedPlain(c);
    assert Escaped("\"") == "\\\"" by { assert "\""[1..] == []; }
  }

  /** `<< >>` is the empty substack, whatever the element parser. */
  lemma EmptySubstackExample(elemParse: string -> Result<Element>)
    ensures ParseSubstackSpec("<< >>", elemParse) == Ok(SubstackElement([]))
  {
    var s := "<< >>";
    assert Split(s) == Scanning(0, false, ' ', " ", []);
    assert Trimmed(" ") == [];
  }

  /** `<< 1 >>, >>`: the second `>` closes a substack that was never opened,
      reported at index 5, before the comma is reached. */
  lemma ExtraClosingExample(elemParse: string -> Result<Element>)
    ensures ParseSubstackSpec("<< 1 >>, >>", elemParse)
      == Err(ParserError(EXTRA_CLOSE_MESSAGE, "<< 1 >>, >>", 5))
  {
    var s := "<< 1 >>, >>";
    assert s[2] == ' ' && s[3] == '1' && s[4] == ' ' && s[5] == '>' && s[6] == '>';
    assert Split(s) == Unbalanced(5, []);
  }

  /** `<< 1, << 3 >>`: the last two characters are never scanned, so the inner
      `<<` stays open. */
  lemma MissingClosingExample(elemParse: string -> Result<Element>)
    requires elemParse("1").Ok?
    ensures ParseSubstackSpec("<< 1, << 3 >>", elemParse)
      == Err(ParserError(MissingMessage(1), "<< 1, << 3 >>", 12))
  {
    var s := "<< 1, << 3 >>";
    assert s[2] == ' ' && s[3] == '1' && s[4] == ',' && s[5] == ' ' && s[6] == '<';
    assert s[7] == '<' && s[8] == ' ' && s[9] == '3' && s[10] == ' ';
    assert Trimmed(" 1") == "1";
    assert Split(s) == Scanning(1, false, ' ', " << 3 ", ["1"]);
  }

  /** As written, every piece goes to SubstackElement::parse itself, whose
      loop runs from begin() + 2 to end() - 2 and so needs a token of at least
      four characters. This says whether every piece of s is that long. */
  predicate AsWrittenPiecesInRange(s: string)
    requires |s| >= 4
  {
    var sc := Split(s);
    (forall k :: 0 <= k < |sc.pieces| ==> |sc.pieces[k]| >= 4)
    && (sc.Scanning? && Trimmed(sc.accumulator) != [] ==> |Trimmed(sc.accumulator)| >= 4)
  }

  /** `<< 1, 2 >>` hands the one-character piece `1` to SubstackElement::parse. */
  lemma AsWrittenOutOfRange(s: string)
    requires s == "<< 1, 2 >>"
    ensures |s| >= 4 && !AsWrittenPiecesInRange(s)
  {
    TwoNumbersScan(s);
    assert |Split(s).pieces[0]| == 1;
  }

  lemma TwoNumbersScan(s: string)
    requires s == "<< 1, 2 >>"
    ensures |s| == 10 && Split(s).Scanning? && Split(s).pieces == ["1"]
  {
    assert s[2] == ' ' && s[3] == '1' && s[4] == ',' && s[5] == ' ' && s[6] == '2' && s[7] == ' ';
    ScanQuiet(s, 2, 4, INITIAL_SCAN);
    var st4 := Scanning(0, false, '1', [] + s[2..4], []);
    StepAdvance(s, 4, st4);
    assert s[2..4] == " 1" && [] + s[2..4] == " 1";
    assert Trimmed(" 1") == "1";
    assert Trimmed(st4.accumulator) == "1";
    assert [] + ["1"] == ["1"];
    var st5 := Scanning(0, false, ',', [], ["1"]);
    assert Step(st4, s[4], 4) == st5;
    ScanQuiet(s, 5, 8, st5);
  }

  // ---------------------------------------------------------------------
  // Rendering

  /** The printed form of an element, as the substack renderer asks each of
      its elements for it. Strings and substacks are rendered as their own
      operators do; the other kinds' renderings (numbers, booleans, types,
      commands) are not part of this model and are supplied by `atom`. */
  function Render(e: Element, atom: Element -> string): (r: string)
    ensures e.StringElement? ==> |r| >= 2 && r[0] == '"' && r[|r| - 1] == '"'
    ensures e.SubstackElement? ==> |r| >= 6 && r[..3] == SUBSTACK_BEGIN && r[|r| - 3..] == SUBSTACK_END
    decreases e
  {
    match e
    case StringElement(d) => RenderString(d)
    case SubstackElement(items) =>
      if items == [] then SUBSTACK_EMPTY else SUBSTACK_BEGIN + Join(items, atom) + SUBSTACK_END
    case _ => atom(e)
  }

  /** The renderings of the elements, separated by ", ". */
  function Join(items: seq<Element>, atom: Element -> string): (r: string)
    requires items != []
    ensures Render(items[0], atom) <= r
    ensures |r| >= 2 * (|items| - 1)
    decreases items
  {
    if |items| == 1 then Render(items[0], atom)
    else Render(items[0], atom) + SUBSTACK_SEPARATOR + Join(items[1..], atom)
  }

  lemma {:induction false} JoinSnoc(items: seq<Element>, x: Element, atom: Element -> string)
    requires items != []
    ensures Join(items + [x], atom) == Join(items, atom) + SUBSTACK_SEPARATOR + Render(x, atom)
    decreases |items|
  {
    var l := items + [x];
    var head, last := Render(items[0], atom), Render(x, atom);
    assert l[0] == items[0] && |l| >= 2;
    assert Join(l, atom) == head + SUBSTACK_SEPARATOR + Join(l[1..], atom);
    if |items| == 1 {
      assert l[1..] == [x];
      assert Join(l[1..], atom) == last;
    } else {
      assert l[1..] == items[1..] + [x];
      JoinSnoc(items[1..], x, atom);
      var mid := Join(items[1..], atom);
      assert Join(items, atom) == head + SUBSTACK_SEPARATOR + mid;
      assert Join(l[1..], atom) == mid + SUBSTACK_SEPARATOR + last;
    }
  }

  /** One more element of the prefix adds a separator and its rendering. */
  lemma JoinPrefixStep(items: seq<Element>, k: nat, atom: Element -> string)
    requires 1 <= k < |items|
    ensures Join(items[..k + 1], atom) == Join(items[..k], atom) + SUBSTACK_SEPARATOR + Render(items[k], atom)
  {
    JoinSnoc(items[..k], items[k], atom);
    assert items[..k + 1] == items[..k] + [items[k]];
  }

  /** The rendering operator: "<< (empty) >>" for an empty substack, else the
      elements from the top, each followed by a separator, with the last
      separator erased before the closing delimiter is appended. */
  method RenderSubstack(items: seq<Element>, atom: Element -> string) returns (buffer: string)
    ensures buffer == Render(SubstackElement(items), atom)
  {
    if |items| == 0 {
      return SUBSTACK_EMPTY;
    }
    buffer := SUBSTACK_BEGIN;
    buffer := buffer + Render(items[0], atom) + SUBSTACK_SEPARATOR;
    ghost var joined := Render(items[0], atom);
    JoinFirst(items, atom);
    var k := 1;
    while k < |items|
      invariant 1 <= k <= |items|
      invariant joined == Join(items[..k], atom)
      invariant buffer == SUBSTACK_BEGIN + joined + SUBSTACK_SEPARATOR
    {
      JoinPrefixStep(items, k, atom);
      AppendPiece(joined, Render(items[k], atom));
      buffer := buffer + Render(items[k], atom) + SUBSTACK_SEPARATOR;
      joined := joined + SUBSTACK_SEPARATOR + Render(items[k], atom);
      k := k + 1;
    }
    assert items[..k] == items;
    DropSeparator(SUBSTACK_BEGIN + joined);
    buffer := buffer[..|buffer| - 2];
    buffer := buffer + SUBSTACK_END;
  }

  lemma AppendPiece(joined: string, x: string)
    ensures SUBSTACK_BEGIN + joined + SUBSTACK_SEPARATOR + x + SUBSTACK_SEPARATOR
      == SUBSTACK_BEGIN + (joined + SUBSTACK_SEPARATOR + x) + SUBSTACK_SEPARATOR
  {
  }

  lemma JoinFirst(items: seq<Element>, atom: Element -> string)
    requires items != []
    ensures Join(items[..1], atom) == Render(items[0], atom)
  {
    assert items[..1] == [items[0]];
  }

  /** Erasing the last two characters removes a trailing separator. */
  lemma DropSeparator(a: string)
    ensures (a + SUBSTACK_SEPARATOR)[..|a + SUBSTACK_SEPARATOR| - 2] == a
  {
  }
}
