/** The string-literal codec and the small string helpers of util::. The
    routines that rewrite a local copy of their argument inside an index loop
    (escape, unescape, findImproperEscape, removeChar, trim) are methods, each
    proved equal to a specification function; the lemmas state what those
    functions mean. */
module StringUtils {
  import opened Values

  /** The characters of the WHITESPACE constant that trim strips. */
  predicate IsWhitespace(c: char) {
    c == ' ' || c == '\t' || c == '\n' || c == '\r' || c == '\U{0B}' || c == '\U{0C}'
  }

  // ---------------------------------------------------------------------
  // find, starts_with, ends_with

  /** p occurs in s at index j. */
  predicate OccursAt(s: string, p: string, j: nat) {
    j + |p| <= |s| && s[j..j + |p|] == p
  }

  /** std::string::find(p, from): the first index at or after `from` where `p`
      occurs in `s`, or None (npos). */
  function Find(s: string, p: string, from: nat): (r: Option<nat>)
    ensures r.Some? ==> from <= r.value && OccursAt(s, p, r.value)
    ensures r.Some? ==> forall j: nat :: from <= j < r.value ==> !OccursAt(s, p, j)
    ensures r.None? ==> forall j: nat :: from <= j ==> !OccursAt(s, p, j)
    decreases |s| - from
  {
    if from + |p| > |s| then None
    else if s[from..from + |p|] == p then Some(from)
    else Find(s, p, from + 1)
  }

  /** starts_with: `0 == s.find(p)`, which holds exactly when p is a prefix of s. */
  function StartsWith(s: string, p: string): (r: bool)
    ensures r <==> p <= s
  {
    assert p <= s <==> OccursAt(s, p, 0);
    Find(s, p, 0) == Some(0)
  }

  /** ends_with: the length guard, then a search from |s| - |p|; it holds
      exactly when p is a suffix of s. */
  function EndsWith(s: string, p: string): (r: bool)
    ensures r <==> |p| <= |s| && s[|s| - |p|..] == p
  {
    |s| >= |p| && Find(s, p, |s| - |p|) == Some(|s| - |p|)
  }

  // ---------------------------------------------------------------------
  // escape

  /** What escape writes in place of one character. */
  function EscapeChar(c: char): string {
    if c == '"' then "\\\""
    else if c == '\n' then "\\n"
    else if c == '\\' then "\\\\"
    else [c]
  }

  /** Every quote, newline and backslash replaced by its two-character escape;
      every other character kept, in order. */
  function Escaped(s: string): string {
    if s == [] then [] else EscapeChar(s[0]) + Escaped(s[1..])
  }

  lemma {:induction false} EscapedAppend(a: string, b: string)
    ensures Escaped(a + b) == Escaped(a) + Escaped(b)
  {
    if a == [] {
      assert a + b == b;
    } else {
      assert (a + b)[1..] == a[1..] + b;
      EscapedAppend(a[1..], b);
    }
  }

  /** A string without quotes, newlines or backslashes is its own escape. */
  lemma {:induction false} EscapedPlain(s: string)
    requires forall j :: 0 <= j < |s| ==> s[j] != '"' && s[j] != '\n' && s[j] != '\\'
    ensures Escaped(s) == s
  {
    if s != [] {
      EscapedPlain(s[1..]);
      assert s == [s[0]] + s[1..];
    }
  }

  lemma EscapedStep(s: string, k: nat)
    requires k < |s|
    ensures Escaped(s[..k + 1]) == Escaped(s[..k]) + EscapeChar(s[k])
  {
    assert s[..k + 1] == s[..k] + [s[k]];
    EscapedAppend(s[..k], [s[k]]);
    assert [s[k]][1..] == [];
  }

  /** The body of escape's loop: the special character at i is erased and its
      two-character escape inserted; the index ends past what was written. */
  method EscapeAt(s: string, i: nat) returns (t: string, next: nat)
    requires i < |s|
    ensures t == s[..i] + EscapeChar(s[i]) + s[i + 1..]
    ensures next == i + |EscapeChar(s[i])|
  {
    t, next := s, i;
    if s[i] == '"' {
      // erase(i, 1), then insert(i, "\\\"")
      t := s[..i] + "\\\"" + s[i + 1..];
      next := next + 1;
    } else if s[i] == '\n' {
      t := s[..i] + "\\n" + s[i + 1..];
      next := next + 1;
    } else if s[i] == '\\' {
      t := s[..i] + "\\\\" + s[i + 1..];
      next := next + 1;
    } else {
      assert s == s[..i] + [s[i]] + s[i + 1..];
    }
    next := next + 1;
  }

  /** escape: the loop replaces the special character at i by its escape and
      steps over the inserted pair, so no character is escaped twice. */
  method Escape(s0: string) returns (s: string)
    ensures s == Escaped(s0)
  {
    s := s0;
    var i: nat := 0;
    ghost var k: nat := 0;
    ghost var done: string := [];
    while i < |s|
      invariant k <= |s0| && done == Escaped(s0[..k])
      invariant i == |done| && s == done + s0[k..]
      decreases |s0| - k
    {
      EscapeInvariant(s0, s, done, k);
      s, i := EscapeAt(s, i);
      done := done + EscapeChar(s0[k]);
      k := k + 1;
    }
    assert s0[..k] == s0;
  }

  /** escape's loop invariant carried over one iteration. */
  lemma EscapeInvariant(s0: string, s: string, done: string, k: nat)
    requires k < |s0| && done == Escaped(s0[..k]) && s == done + s0[k..]
    ensures |done| < |s| && s[|done|] == s0[k]
    ensures done + EscapeChar(s0[k]) == Escaped(s0[..k + 1])
    ensures s[..|done|] + EscapeChar(s0[k]) + s[|done| + 1..] == (done + EscapeChar(s0[k])) + s0[k + 1..]
  {
    assert s0[k..] == [s0[k]] + s0[k + 1..];
    assert s[..|done|] == done && s[|done| + 1..] == s0[k + 1..];
    EscapedStep(s0, k);
  }

  // ---------------------------------------------------------------------
  // unescape

  /** The characters that may follow a backslash in a valid escape. */
  predicate IsEscapable(c: char) {
    c == '"' || c == 'n' || c == '\\'
  }

  /** The character an escape pair `\c` stands for. */
  function Decode(c: char): char {
    if c == 'n' then '\n' else c
  }

  /** Left-to-right decoding: each pair `\"`, `\n`, `\\` collapses into the
      character it stands for; every other character is kept. A backslash a
      pair produces is never the start of another pair. */
  function Unescaped(s: string): string {
    if |s| >= 2 && s[0] == '\\' && IsEscapable(s[1]) then [Decode(s[1])] + Unescaped(s[2..])
    else if s == [] then []
    else [s[0]] + Unescaped(s[1..])
  }

  /** Collapsing a valid pair at j moves the decoded boundary past it. */
  lemma UnescapedPair(s0: string, s: string, j: nat)
    requires j + 1 < |s| && s[j] == '\\' && IsEscapable(s[j + 1])
    requires Unescaped(s0) == s[..j] + Unescaped(s[j..])
    ensures var t := s[..j] + [Decode(s[j + 1])] + s[j + 2..];
      Unescaped(s0) == t[..j + 1] + Unescaped(t[j + 1..])
  {
    assert s[j..][2..] == s[j + 2..];
    var t := s[..j] + [Decode(s[j + 1])] + s[j + 2..];
    assert t[..j + 1] == s[..j] + [Decode(s[j + 1])];
    assert t[j + 1..] == s[j + 2..];
  }

  /** A character at j that does not start a valid pair is kept, which moves
      the decoded boundary past it. */
  lemma UnescapedKeep(s0: string, s: string, j: nat)
    requires j < |s| && !(s[j] == '\\' && j + 1 < |s| && IsEscapable(s[j + 1]))
    requires Unescaped(s0) == s[..j] + Unescaped(s[j..])
    ensures Unescaped(s0) == s[..j + 1] + Unescaped(s[j + 1..])
  {
    assert s[j..][1..] == s[j + 1..];
    assert s[..j + 1] == s[..j] + [s[j]];
  }

  /** unescape: the two flags record whether the last one or two characters
      still in the string are backslashes; on a collapse the index steps back
      onto the backslash and the flags reset. The flags never both hold, so
      the loop decodes exactly as Unescaped does: everything before the ghost
      index j is decoded output, everything from it on is still to decode. */
  method Unescape(s0: string) returns (s: string)
    ensures s == Unescaped(s0)
  {
    s := s0;
    var prevBackslash := false;
    var prevPrevBackslash := false;
    var i: nat := 0;
    ghost var j: nat := 0;
    while i < |s|
      invariant j <= i <= |s|
      invariant prevBackslash ==> j + 1 == i && s[j] == '\\'
      invariant !prevBackslash ==> j == i
      invariant !(prevBackslash && prevPrevBackslash)
      invariant Unescaped(s0) == s[..j] + Unescaped(s[j..])
      decreases |s| - i
    {
      if IsEscapable(s[i]) && prevBackslash && !prevPrevBackslash {
        UnescapedPair(s0, s, j);
        // i--, erase(i, 2), insert(i, <decoded>)
        i := i - 1;
        s := s[..i] + [Decode(s[i + 1])] + s[i + 2..];
        prevPrevBackslash := false;
        prevBackslash := false;
        j := i + 1;
      } else {
        if prevBackslash {
          UnescapedKeep(s0, s, j);
          j := i;
        }
        if s[i] != '\\' {
          UnescapedKeep(s0, s, i);
          j := i + 1;
        }
        prevPrevBackslash := prevBackslash;
        prevBackslash := s[i] == '\\';
      }
      i := i + 1;
    }
    if prevBackslash {
      assert s[j..] == "\\";
      assert s[..j] + "\\" == s;
    } else {
      assert s[..j] == s;
    }
  }

  /** Round trip: unescape undoes escape. */
  lemma {:induction false} UnescapeEscape(s: string)
    ensures Unescaped(Escaped(s)) == s
  {
    if s != [] {
      var rest := Escaped(s[1..]);
      UnescapeEscape(s[1..]);
      if s[0] == '"' || s[0] == '\n' || s[0] == '\\' {
        var e := EscapeChar(s[0]) + rest;
        assert e[0] == '\\' && IsEscapable(e[1]) && e[2..] == rest;
      } else {
        var e := [s[0]] + rest;
        assert e[1..] == rest;
      }
    }
  }

  // ---------------------------------------------------------------------
  // findImproperEscape

  /** Shifts a found index by k; None (npos) stays None. */
  function Shift(o: Option<nat>, k: nat): Option<nat> {
    match o
    case None => None
    case Some(i) => Some(i + k)
  }

  /** The index of the first defect of an escaped string, scanning left to
      right and stepping over the second character of every valid pair: a
      trailing backslash, a backslash followed by anything other than `n`, `"`
      or `\`, or a bare quote. None when there is none. */
  function ImproperEscape(s: string): (r: Option<nat>)
    ensures r.Some? ==> r.value < |s|
  {
    if s == [] then None
    else if s[0] == '\\' && |s| == 1 then Some(0)
    else if s[0] == '\\' && !IsEscapable(s[1]) then Some(0)
    else if s[0] == '"' then Some(0)
    else if s[0] == '\\' then Shift(ImproperEscape(s[2..]), 2)
    else Shift(ImproperEscape(s[1..]), 1)
  }

  /** ImproperEscape of a suffix, unfolded once. */
  lemma ImproperEscapeAt(s: string, i: nat)
    requires i < |s|
    ensures (s[i] == '"' || (s[i] == '\\' && (i + 1 == |s| || !IsEscapable(s[i + 1]))))
      ==> ImproperEscape(s[i..]) == Some(0)
    ensures s[i] == '\\' && i + 1 < |s| && IsEscapable(s[i + 1])
      ==> ImproperEscape(s[i..]) == Shift(ImproperEscape(s[i + 2..]), 2)
    ensures s[i] != '\\' && s[i] != '"'
      ==> ImproperEscape(s[i..]) == Shift(ImproperEscape(s[i + 1..]), 1)
  {
    assert s[i..][1..] == s[i + 1..];
    if i + 1 < |s| {
      assert s[i..][2..] == s[i + 2..];
    }
  }

  lemma ShiftShift(o: Option<nat>, j: nat, k: nat)
    ensures Shift(Shift(o, j), k) == Shift(o, j + k)
  {
  }

  /** findImproperEscape, with None standing for npos. */
  method FindImproperEscape(str: string) returns (r: Option<nat>)
    ensures r == ImproperEscape(str)
  {
    var i: nat := 0;
    while i < |str|
      invariant i <= |str|
      invariant ImproperEscape(str) == Shift(ImproperEscape(str[i..]), i)
    {
      ImproperEscapeAt(str, i);
      if (str[i] == '\\' && i + 1 >= |str|)
         || (str[i] == '\\' && str[i + 1] != 'n' && str[i + 1] != '"' && str[i + 1] != '\\')
         || str[i] == '"'
      {
        return Some(i);
      } else if str[i] == '\\' {
        ShiftShift(ImproperEscape(str[i + 2..]), 2, i);
        i := i + 1;
      } else {
        ShiftShift(ImproperEscape(str[i + 1..]), 1, i);
      }
      i := i + 1;
    }
    assert str[i..] == [];
    r := None;
  }

  /** What a reported defect is: at the reported index there is a bare quote,
      a trailing backslash or a backslash before a character that cannot be
      escaped, and everything before it is well formed. */
  lemma {:induction false} ImproperEscapeIsFirstDefect(s: string)
    requires ImproperEscape(s).Some?
    ensures var k := ImproperEscape(s).value;
      && (s[k] == '"' || (s[k] == '\\' && (k + 1 == |s| || !IsEscapable(s[k + 1]))))
      && ImproperEscape(s[..k]) == None
  {
    var k := ImproperEscape(s).value;
    if k == 0 {
      assert s[..0] == [];
    } else if s[0] == '\\' {
      ImproperEscapeIsFirstDefect(s[2..]);
      var t := s[..k];
      assert t[2..] == s[2..][..k - 2];
    } else {
      ImproperEscapeIsFirstDefect(s[1..]);
      var t := s[..k];
      assert t[1..] == s[1..][..k - 1];
    }
  }

  /** After a prefix of ordinary characters, the first defect is the one
      reported. */
  lemma {:induction false} ImproperEscapeAfterPlain(s: string, k: nat)
    requires k < |s|
    requires forall j :: 0 <= j < k ==> s[j] != '\\' && s[j] != '"'
    requires s[k] == '"' || (s[k] == '\\' && (k + 1 == |s| || !IsEscapable(s[k + 1])))
    ensures ImproperEscape(s) == Some(k)
  {
    if k > 0 {
      ImproperEscapeAfterPlain(s[1..], k - 1);
    }
  }

  /** Escaped text is always well formed. */
  lemma {:induction false} EscapedIsWellFormed(s: string)
    ensures ImproperEscape(Escaped(s)) == None
  {
    if s != [] {
      var rest := Escaped(s[1..]);
      EscapedIsWellFormed(s[1..]);
      if s[0] == '"' || s[0] == '\n' || s[0] == '\\' {
        var e := EscapeChar(s[0]) + rest;
        assert e[0] == '\\' && IsEscapable(e[1]) && e[2..] == rest;
      } else {
        var e := [s[0]] + rest;
        assert e[1..] == rest;
      }
    }
  }

  /** The other round trip: a well-formed string without a raw newline is
      re-escaped to itself. (A raw newline is accepted by findImproperEscape
      and kept by unescape, but escape writes it back as `\n`.) */
  lemma {:induction false} EscapeUnescape(s: string)
    requires ImproperEscape(s) == None
    requires '\n' !in s
    ensures Escaped(Unescaped(s)) == s
  {
    if s != [] {
      if s[0] == '\\' {
        assert |s| >= 2 && IsEscapable(s[1]);
        assert ImproperEscape(s[2..]) == None;
        assert '\n' !in s[2..] by {
          forall j | 0 <= j < |s[2..]| ensures s[2..][j] != '\n' {
            assert s[2..][j] == s[j + 2];
          }
        }
        EscapeUnescape(s[2..]);
        assert s == [s[0], s[1]] + s[2..];
      } else {
        assert ImproperEscape(s[1..]) == None;
        assert '\n' !in s[1..] by {
          forall j | 0 <= j < |s[1..]| ensures s[1..][j] != '\n' {
            assert s[1..][j] == s[j + 1];
          }
        }
        EscapeUnescape(s[1..]);
        assert s == [s[0]] + s[1..];
      }
    }
  }

  // ---------------------------------------------------------------------
  // spaces, removeChar, trim

  /** spaces: a string of exactly n spaces. */
  function Spaces(n: nat): (r: string)
    ensures |r| == n
    ensures forall i :: 0 <= i < n ==> r[i] == ' '
  {
    seq(n, _ => ' ')
  }

  /** s with every occurrence of c deleted. */
  function Removed(s: string, c: char): string {
    if s == [] then [] else (if s[0] == c then [] else [s[0]]) + Removed(s[1..], c)
  }

  lemma {:induction false} RemovedAppend(a: string, b: string, c: char)
    ensures Removed(a + b, c) == Removed(a, c) + Removed(b, c)
  {
    if a == [] {
      assert a + b == b;
    } else {
      assert (a + b)[1..] == a[1..] + b;
      RemovedAppend(a[1..], b, c);
    }
  }

  /** One more character of the input extends the removal by that character,
      unless it is c. */
  lemma RemovedStep(s0: string, k: nat, c: char)
    requires k < |s0|
    ensures Removed(s0[..k + 1], c) == Removed(s0[..k], c) + (if s0[k] == c then [] else [s0[k]])
  {
    assert s0[..k + 1] == s0[..k] + [s0[k]];
    RemovedAppend(s0[..k], [s0[k]], c);
    assert [s0[k]][1..] == [];
  }

  /** removeChar's loop invariant carried over one iteration. */
  lemma RemoveInvariant(s0: string, s: string, done: string, k: nat, c: char)
    requires k < |s0| && done == Removed(s0[..k], c) && s == done + s0[k..]
    ensures |done| < |s| && s[|done|] == s0[k]
    ensures done + (if s0[k] == c then [] else [s0[k]]) == Removed(s0[..k + 1], c)
    ensures s[..|done|] + s[|done| + 1..] == done + s0[k + 1..]
    ensures s == (done + [s0[k]]) + s0[k + 1..]
  {
    RemovedStep(s0, k, c);
    assert s0[k..] == [s0[k]] + s0[k + 1..];
    assert s[..|done|] == done && s[|done| + 1..] == s0[k + 1..];
  }

  /** removeChar: a matching character is erased and the index stays put (the
      source's `i--` followed by the loop's `i++`). */
  method RemoveChar(s0: string, c: char) returns (s: string)
    ensures s == Removed(s0, c)
  {
    s := s0;
    var i: nat := 0;
    ghost var k: nat := 0;
    ghost var done: string := [];
    while i < |s|
      invariant k <= |s0| && done == Removed(s0[..k], c)
      invariant i == |done| && s == done + s0[k..]
      decreases |s0| - k
    {
      RemoveInvariant(s0, s, done, k, c);
      if s[i] == c {
        s := s[..i] + s[i + 1..];
      } else {
        i := i + 1;
      }
      done := done + (if s0[k] == c then [] else [s0[k]]);
      k := k + 1;
    }
    assert s0[..k] == s0;
  }

  /** Removed keeps every other character exactly as often as before and
      leaves no c behind. */
  lemma {:induction false} RemovedContents(s: string, c: char)
    ensures c !in Removed(s, c)
    ensures multiset(Removed(s, c)) == multiset(s)[c := 0]
  {
    if s != [] {
      RemovedContents(s[1..], c);
      assert s == [s[0]] + s[1..];
      assert multiset(s) == multiset([s[0]]) + multiset(s[1..]);
    }
  }

  /** Leading whitespace removed. */
  function TrimLeft(s: string): string {
    if s != [] && IsWhitespace(s[0]) then TrimLeft(s[1..]) else s
  }

  /** Trailing whitespace removed. */
  function TrimRight(s: string): string {
    if s != [] && IsWhitespace(s[|s| - 1]) then TrimRight(s[..|s| - 1]) else s
  }

  function Trimmed(s: string): string {
    TrimRight(TrimLeft(s))
  }

  /** trim: erase up to find_first_not_of(WHITESPACE) (everything when that is
      npos), then erase from find_last_not_of(WHITESPACE) + 1 (nothing is left
      to erase when that is npos, since npos + 1 wraps to 0 on an empty string). */
  method Trim(s0: string) returns (s: string)
    ensures s == Trimmed(s0)
  {
    s := s0;
    var first: nat := 0;
    while first < |s| && IsWhitespace(s[first])
      invariant first <= |s|
      invariant TrimLeft(s0) == TrimLeft(s[first..])
    {
      TrimLeftStep(s, first);
      first := first + 1;
    }
    TrimLeftStops(s[first..]);
    s := s[first..];
    assert s[..|s|] == s;
    var last: nat := |s|;
    while last > 0 && IsWhitespace(s[last - 1])
      invariant last <= |s|
      invariant Trimmed(s0) == TrimRight(s[..last])
    {
      TrimRightStep(s, last);
      last := last - 1;
    }
    TrimRightStops(s[..last]);
    s := s[..last];
  }

  lemma TrimLeftStep(s: string, k: nat)
    requires k < |s| && IsWhitespace(s[k])
    ensures TrimLeft(s[k..]) == TrimLeft(s[k + 1..])
  {
    assert s[k..][1..] == s[k + 1..];
  }

  lemma TrimLeftStops(t: string)
    requires t == [] || !IsWhitespace(t[0])
    ensures TrimLeft(t) == t
  {
  }

  lemma TrimRightStep(s: string, k: nat)
    requires 0 < k <= |s| && IsWhitespace(s[k - 1])
    ensures TrimRight(s[..k]) == TrimRight(s[..k - 1])
  {
    assert s[..k][..k - 1] == s[..k - 1];
  }

  lemma TrimRightStops(t: string)
    requires t == [] || !IsWhitespace(t[|t| - 1])
    ensures TrimRight(t) == t
  {
  }

  /** TrimLeft drops a whitespace prefix of length a. */
  lemma {:induction false} TrimLeftShape(s: string) returns (a: nat)
    ensures a <= |s| && TrimLeft(s) == s[a..]
    ensures forall j :: 0 <= j < a ==> IsWhitespace(s[j])
    ensures a == |s| || !IsWhitespace(s[a])
  {
    if s != [] && IsWhitespace(s[0]) {
      var a' := TrimLeftShape(s[1..]);
      a := a' + 1;
      assert s[1..][a'..] == s[a..];
      forall j | 0 <= j < a ensures IsWhitespace(s[j]) {
        if j > 0 { assert s[j] == s[1..][j - 1]; }
      }
    } else {
      a := 0;
    }
  }

  /** TrimRight keeps a prefix of length b followed only by whitespace. */
  lemma {:induction false} TrimRightShape(s: string) returns (b: nat)
    ensures b <= |s| && TrimRight(s) == s[..b]
    ensures forall j :: b <= j < |s| ==> IsWhitespace(s[j])
    ensures b == 0 || !IsWhitespace(s[b - 1])
  {
    if s != [] && IsWhitespace(s[|s| - 1]) {
      var t := s[..|s| - 1];
      b := TrimRightShape(t);
      assert t[..b] == s[..b];
      forall j | b <= j < |s| ensures IsWhitespace(s[j]) {
        if j < |s| - 1 { assert s[j] == t[j]; }
      }
    } else {
      b := |s|;
    }
  }

  /** What trim computes: s is some whitespace, then the result, then some
      whitespace, and the result neither starts nor ends with whitespace. */
  lemma TrimmedShape(s: string) returns (a: nat, b: nat)
    ensures a <= b <= |s| && Trimmed(s) == s[a..b]
    ensures forall j :: 0 <= j < a ==> IsWhitespace(s[j])
    ensures forall j :: b <= j < |s| ==> IsWhitespace(s[j])
    ensures a < b ==> !IsWhitespace(s[a]) && !IsWhitespace(s[b - 1])
  {
    a := TrimLeftShape(s);
    var l := s[a..];
    var b' := TrimRightShape(l);
    b := a + b';
    assert l[..b'] == s[a..b];
    forall j | b <= j < |s| ensures IsWhitespace(s[j]) {
      assert s[j] == l[j - a];
    }
    if a < b {
      assert s[a] == l[0];
      assert s[b - 1] == l[b' - 1];
    }
  }

  /** An all-whitespace string trims to the empty string. */
  lemma TrimAllWhitespace(s: string)
    requires forall j :: 0 <= j < |s| ==> IsWhitespace(s[j])
    ensures Trimmed(s) == []
  {
    var a, b := TrimmedShape(s);
  }

  /** A string with no whitespace at either end is its own trim. */
  lemma {:induction false} TrimmedFixpoint(s: string)
    requires s == [] || (!IsWhitespace(s[0]) && !IsWhitespace(s[|s| - 1]))
    ensures Trimmed(s) == s
  {
  }

  /** trim is idempotent. */
  lemma TrimIdempotent(s: string)
    ensures Trimmed(Trimmed(s)) == Trimmed(s)
  {
    var a, b := TrimmedShape(s);
    TrimmedFixpoint(Trimmed(s));
  }
}
