/**
 * The token extractors of the RJSON scanner (Src/Rjson.cpp): parseString,
 * parseKey, the lexeme that parseDouble accumulates, and parseBool.
 */
module RjsonTokens {
  import opened Outcomes
  import opened Text
  import opened RjsonScanner

  // ---------------------------------------------------------------------------
  // parseString

  /** The character a backslash escape stands for: the fixed set `\" \\ \/ \b \f \n \r \t`. */
  function Unescape(c: char): (r: Option<char>)
    ensures r.Some? <==> c in ['"', '\\', '/', 'b', 'f', 'n', 'r', 't']
    ensures r.Some? ==> r.value != '\0'
  {
    match c
    case '"' => Some('"')
    case '\\' => Some('\\')
    case '/' => Some('/')
    case 'b' => Some('\U{08}')
    case 'f' => Some('\U{0C}')
    case 'n' => Some('\n')
    case 'r' => Some('\r')
    case 't' => Some('\t')
    case _ => None
  }

  /** The decoded text of a literal from position `j` (just inside it) up to its closing quote. */
  function DecodeFrom(s: Text, j: nat): (r: Result<string, Error>)
    requires j <= |s|
    ensures j == |s| ==> r == Fail(BadString(j))
    // a decoded text is shorter than what remains of the buffer: the closing quote is not part of it
    ensures r.Ok? ==> |r.value| < |s| - j
    decreases |s| - j
  {
    if j == |s| then Fail(BadString(j))
    else if s[j] == '"' then Ok([])
    else if s[j] == '\\' then
      match Unescape(At(s, j + 1))
      case None => Fail(BadEscape(j + 1))
      case Some(c) =>
        var rest := DecodeFrom(s, j + 2);
        if rest.Fail? then rest else Ok([c] + rest.value)
    else
      var rest := DecodeFrom(s, j + 1);
      if rest.Fail? then rest else Ok([s[j]] + rest.value)
  }

  /** The outcome of appending a decoded text to `prefix`: failures pass through. */
  function Appended(prefix: string, r: Result<string, Error>): Result<string, Error> {
    if r.Fail? then r else Ok(prefix + r.value)
  }

  /** Appending one decoded character, then the rest, is appending to the longer prefix. */
  lemma AppendedStep(prefix: string, c: char, rest: Result<string, Error>)
    ensures Appended(prefix, if rest.Fail? then rest else Ok([c] + rest.value)) == Appended(prefix + [c], rest)
  {
    if rest.Ok? {
      assert prefix + ([c] + rest.value) == prefix + [c] + rest.value;
    }
  }

  /** A backslash and an escape letter decode to that letter's character, then the rest. */
  lemma DecodeEscapeStep(s: Text, j: nat)
    requires j < |s| && s[j] == '\\'
    ensures Unescape(At(s, j + 1)).None? ==> DecodeFrom(s, j) == Fail(BadEscape(j + 1))
    ensures Unescape(At(s, j + 1)).Some? ==>
      var c := Unescape(At(s, j + 1)).value;
      var rest := DecodeFrom(s, j + 2);
      DecodeFrom(s, j) == if rest.Fail? then rest else Ok([c] + rest.value)
  {
  }

  /** What `parseString` appends to its output for the literal at `i`. */
  function DecodedString(s: Text, i: nat): (r: Result<string, Error>)
    requires i <= |s|
    ensures At(s, i) != '"' ==> r == Fail(BadString(i))
  {
    if At(s, i) != '"' then Fail(BadString(i)) else DecodeFrom(s, i + 1)
  }

  /**
   * Src/Rjson.cpp:124-167. `str` is the output string the caller passes by
   * reference: the decoded text is appended to it, never replacing it.
   */
  method ParseString(s: Text, i: nat, str: string) returns (r: Result<string, Error>)
    requires i <= |s|
    ensures r.Ok? <==> DecodedString(s, i).Ok?
    ensures r.Ok? ==> r.value == str + DecodedString(s, i).value
    ensures r.Fail? ==> r.error == DecodedString(s, i).error
  {
    if At(s, i) == '"' {
      var out := str;
      var j := i + 1;
      while At(s, j) != '\0'
        invariant i < j <= |s|
        invariant Appended(str, DecodedString(s, i)) == Appended(out, DecodeFrom(s, j))
        decreases |s| - j
      {
        if s[j] == '"' {
          return Ok(out);
        } else if s[j] == '\\' {
          DecodeEscapeStep(s, j);
          ghost var escape := Unescape(At(s, j + 1));
          if escape.Some? {
            AppendedStep(out, escape.value, DecodeFrom(s, j + 2));
          }
          j := j + 1;
          match At(s, j)
          case '"' => out := out + ['"'];
          case '\\' => out := out + ['\\'];
          case '/' => out := out + ['/'];
          case 'b' => out := out + ['\U{08}'];
          case 'f' => out := out + ['\U{0C}'];
          case 'n' => out := out + ['\n'];
          case 'r' => out := out + ['\r'];
          case 't' => out := out + ['\t'];
          case _ => return Fail(BadEscape(j));
        } else {
          AppendedStep(out, s[j], DecodeFrom(s, j + 1));
          out := out + [s[j]];
        }
        j := j + 1;
      }
      return Fail(BadString(j));
    }
    return Fail(BadString(i));
  }

  /** A character that must be written as an escape inside a literal. */
  predicate NeedsEscape(c: char) {
    c == '"' || c == '\\' || c == '\U{08}' || c == '\U{0C}' || c == '\n' || c == '\r' || c == '\t'
  }

  /** The letter after the backslash in the escape of `c`. */
  function EscapeLetter(c: char): (e: char)
    requires NeedsEscape(c)
    ensures Unescape(e) == Some(c)
  {
    match c
    case '"' => '"'
    case '\\' => '\\'
    case '\U{08}' => 'b'
    case '\U{0C}' => 'f'
    case '\n' => 'n'
    case '\r' => 'r'
    case '\t' => 't'
  }

  /** The escape sequence that stands for `c` inside a literal (itself when none is needed). */
  function EscapeChar(c: char): (e: string)
    requires c != '\0'
    ensures |e| == 1 ==> e[0] == c && c != '"' && c != '\\'
    ensures |e| == 2 ==> e[0] == '\\' && Unescape(e[1]) == Some(c)
    ensures |e| == 1 || |e| == 2
    ensures '\0' !in e
  {
    if NeedsEscape(c) then ['\\', EscapeLetter(c)] else [c]
  }

  /** The body of a literal whose decoded text is `t`: the inverse of DecodeFrom. */
  function Escape(t: Text): (e: Text)
    // at least as long as the text, and at most twice as long
    ensures |t| <= |e| <= 2 * |t|
  {
    if t == [] then [] else EscapeChar(t[0]) + Escape(t[1..])
  }

  /**
   * An escaped body laid out in the buffer: the first character's escape at
   * its front, then the body of the rest.
   */
  lemma EscapeSplit(s: seq<char>, j: nat, k: nat, t: Text)
    requires t != [] && k == j + |Escape(t)| <= |s| && s[j..k] == Escape(t)
    ensures k == j + |EscapeChar(t[0])| + |Escape(t[1..])|
    ensures s[j..j + |EscapeChar(t[0])|] == EscapeChar(t[0])
    ensures s[j + |EscapeChar(t[0])|..k] == Escape(t[1..])
  {
    var a, b := EscapeChar(t[0]), Escape(t[1..]);
    EscapeUnfold(t);
    var x := s[j..k];
    assert x == a + b;
    SliceParts(s, j, k, a, b);
  }

  lemma EscapeUnfold(t: Text)
    requires t != []
    ensures Escape(t) == EscapeChar(t[0]) + Escape(t[1..])
  {
  }

  /** Decoding one escape of `c` yields `c` in front of the decoding of what follows. */
  lemma DecodeStep(s: Text, j: nat, c: char)
    requires c != '\0'
    requires j + |EscapeChar(c)| <= |s| && s[j..j + |EscapeChar(c)|] == EscapeChar(c)
    ensures var rest := DecodeFrom(s, j + |EscapeChar(c)|);
      DecodeFrom(s, j) == if rest.Fail? then rest else Ok([c] + rest.value)
  {
    var e := EscapeChar(c);
    assert s[j] == e[0];
    if |e| == 2 {
      assert s[j + 1] == e[1];
    }
  }

  /** Decoding the escaped body of `t`, up to a closing quote, gives back `t`. */
  lemma {:induction false} DecodeEscape(s: Text, j: nat, k: nat, t: Text)
    requires k == j + |Escape(t)| && k < |s|
    requires s[j..k] == Escape(t)
    requires s[k] == '"'
    ensures DecodeFrom(s, j) == Ok(t)
    decreases |t|
  {
    if t != [] {
      EscapeSplit(s, j, k, t);
      DecodeEscape(s, j + |EscapeChar(t[0])|, k, t[1..]);
      DecodeStep(s, j, t[0]);
      assert [t[0]] + t[1..] == t;
    }
  }

  /** The quoted literal of `t`, followed by anything, decodes to `t`. */
  lemma QuotedRoundTrip(t: Text, rest: Text)
    ensures var lit := ['"'] + Escape(t) + ['"'] + rest;
      '\0' !in lit && DecodedString(lit, 0) == Ok(t)
  {
    var lit: Text := ['"'] + Escape(t) + ['"'] + rest;
    LiteralLayout(Escape(t), rest);
    DecodeEscape(lit, 1, 1 + |Escape(t)|, t);
  }

  /** Where the parts of a quoted literal sit in it. */
  lemma LiteralLayout(body: seq<char>, rest: seq<char>)
    ensures var lit := ['"'] + body + ['"'] + rest;
      |lit| == |body| + 2 + |rest| && lit[0] == '"' && lit[1..1 + |body|] == body && lit[1 + |body|] == '"'
  {
    var lit := ['"'] + body + ['"'] + rest;
    assert lit[1..1 + |body|] == body;
  }

  /** A literal with no closing quote after its opening one is an error, never a value. */
  lemma {:induction false} UnterminatedFrom(s: Text, j: nat)
    requires j <= |s|
    requires '"' !in s[j..]
    ensures DecodeFrom(s, j).Fail?
    decreases |s| - j
  {
    if j < |s| {
      assert s[j] == s[j..][0];
      assert s[j + 1..] == s[j..][1..];
      if s[j] == '\\' {
        if Unescape(At(s, j + 1)).Some? {
          assert At(s, j + 1) != '"' by {
            if j + 1 < |s| { assert s[j + 1] == s[j..][1]; }
          }
          assert j + 2 <= |s|;
          assert s[j + 2..] == s[j..][2..];
          UnterminatedFrom(s, j + 2);
        }
      } else {
        UnterminatedFrom(s, j + 1);
      }
    }
  }

  lemma UnterminatedString(s: Text, i: nat)
    requires i < |s| && s[i] == '"'
    requires '"' !in s[i + 1..]
    ensures DecodedString(s, i).Fail?
  {
    UnterminatedFrom(s, i + 1);
  }

  /**
   * A literal whose escaped body runs to the end of the buffer is an error,
   * whatever quotes (escaped ones) the body holds.
   */
  lemma {:induction false} BodyToEndFails(s: Text, j: nat, t: Text)
    requires j + |Escape(t)| == |s| && s[j..] == Escape(t)
    ensures DecodeFrom(s, j).Fail?
    decreases |t|
  {
    if t != [] {
      assert s[j..|s|] == s[j..];
      EscapeSplit(s, j, |s|, t);
      var n := j + |EscapeChar(t[0])|;
      assert s[n..] == s[n..|s|];
      BodyToEndFails(s, n, t[1..]);
      DecodeStep(s, j, t[0]);
    }
  }

  /** The open literal of any text, with no closing quote, does not decode. */
  lemma OpenLiteralFails(t: Text)
    ensures var lit := ['"'] + Escape(t);
      '\0' !in lit && DecodedString(lit, 0).Fail?
  {
    var lit: Text := ['"'] + Escape(t);
    assert lit[1..] == Escape(t);
    BodyToEndFails(lit, 1, t);
  }

  /**
   * A backslash followed by a character outside the escape set (the end of
   * the buffer included) is a bad escape, reported at that character.
   */
  lemma {:induction false} BadEscapeAfter(s: Text, j: nat, k: nat, t: Text)
    requires k == j + |Escape(t)| && k < |s|
    requires s[j..k] == Escape(t)
    requires s[k] == '\\'
    requires Unescape(At(s, k + 1)).None?
    ensures DecodeFrom(s, j) == Fail(BadEscape(k + 1))
    decreases |t|
  {
    if t != [] {
      EscapeSplit(s, j, k, t);
      BadEscapeAfter(s, j + |EscapeChar(t[0])|, k, t[1..]);
      DecodeStep(s, j, t[0]);
    }
  }

  /** Without backslashes in `t`, every quote of Escape(t) is preceded by a backslash, and the last character is not one. */
  lemma {:induction false} EscapeGuardsQuotes(t: Text)
    requires '\\' !in t
    ensures forall p :: 0 <= p < |Escape(t)| && Escape(t)[p] == '"' ==> 0 < p && Escape(t)[p - 1] == '\\'
    ensures |Escape(t)| > 0 ==> Escape(t)[|Escape(t)| - 1] != '\\'
  {
    if t != [] {
      var e := EscapeChar(t[0]);
      assert t[0] in t;
      assert t[1..] == t[1..];
      assert forall c :: c in t[1..] ==> c in t;
      EscapeGuardsQuotes(t[1..]);
      assert Escape(t) == e + Escape(t[1..]);
      forall p | 0 <= p < |Escape(t)| && Escape(t)[p] == '"'
        ensures 0 < p && Escape(t)[p - 1] == '\\'
      {
        if p >= |e| {
          assert Escape(t)[p] == Escape(t[1..])[p - |e|];
          if p - |e| > 0 {
            assert Escape(t)[p - 1] == Escape(t[1..])[p - |e| - 1];
          }
        }
      }
    }
  }

  /**
   * For a text without backslashes, `skipString` ends exactly after the
   * literal's closing quote, where `parseString` stops decoding.
   */
  lemma SkipStringEndsLiteral(t: Text, rest: Text)
    requires '\\' !in t
    ensures var lit := ['"'] + Escape(t) + ['"'] + rest;
      '\0' !in lit && AfterString(lit, 0) == |Escape(t)| + 2
  {
    var e := Escape(t);
    var lit: Text := ['"'] + e + ['"'] + rest;
    EscapeGuardsQuotes(t);
    assert forall m :: 0 < m < |e| + 1 ==> lit[m] == e[m - 1];
    assert ClosesString(lit, 0, |e| + 1);
  }

  /**
   * The two scanners disagree once a literal holds an escaped backslash:
   * `"\\"x"` decodes to a single backslash ending at offset 4, but
   * `skipString` treats that quote as escaped and runs on to offset 6.
   */
  lemma EscapedBackslashDoesNotEndSkip()
    ensures var lit := ['"', '\\', '\\', '"', 'x', '"'];
      '\0' !in lit && DecodedString(lit, 0) == Ok(['\\']) && AfterString(lit, 0) == 6
  {
    var lit: Text := ['"', '\\', '\\', '"', 'x', '"'];
    assert DecodeFrom(lit, 3) == Ok([]);
    assert Unescape(At(lit, 2)) == Some('\\');
    assert ['\\'] + [] == ['\\'];
    assert DecodeFrom(lit, 1) == Ok(['\\']);
    assert !ClosesString(lit, 0, 3);
    assert ClosesString(lit, 0, 5);
    assert ClosingFrom(lit, 0, 6) == 6;
    assert ClosingFrom(lit, 0, 4) == 6;
  }

  // ---------------------------------------------------------------------------
  // parseKey

  /** A character that ends a bare key: whitespace or '='. */
  predicate EndsBareKey(c: char) {
    IsSpace(c) || c == '='
  }

  /**
   * The key `parseKey` reads at `i` and where it leaves the cursor. The bare
   * key loop of the source has no end-of-buffer stop; reaching the terminator
   * is reported as `PastEnd` here.
   */
  function KeyAt(s: Text, i: nat): (r: Result<(string, nat), Error>)
    requires i <= |s|
    ensures r.Ok? ==> i < r.value.1 <= |s|
    // quoted: the decoded literal, and the cursor just after skipString's closing quote
    ensures At(s, i) == '"' ==>
      (r.Ok? <==> DecodedString(s, i).Ok?) &&
      (r.Ok? ==> r.value == (DecodedString(s, i).value, AfterString(s, i))) &&
      (r.Fail? ==> r.error == DecodedString(s, i).error)
    // bare: exactly the characters before the first whitespace or '=', which the cursor is on
    ensures IsAlpha(At(s, i)) && r.Ok? ==>
      r.value.1 < |s| && EndsBareKey(s[r.value.1]) && r.value.0 == s[i..r.value.1] &&
      forall m :: i <= m < r.value.1 ==> !EndsBareKey(s[m])
    ensures IsAlpha(At(s, i)) && r.Fail? ==>
      r.error == PastEnd(|s|) && forall m :: i <= m < |s| ==> !EndsBareKey(s[m])
    ensures At(s, i) != '"' && !IsAlpha(At(s, i)) ==> r == Fail(BadKey(i))
  {
    if At(s, i) == '"' then
      var key := DecodedString(s, i);
      if key.Fail? then Fail(key.error) else Ok((key.value, AfterString(s, i)))
    else if IsAlpha(At(s, i)) then
      var e := ScanUntil(s, i, EndsBareKey);
      if e == |s| then Fail(PastEnd(e)) else Ok((s[i..e], e))
    else
      Fail(BadKey(i))
  }

  /** A bare key followed by whitespace or '=' is read back exactly. */
  lemma BareKeyRoundTrip(key: Text, rest: Text)
    requires |key| > 0 && IsAlpha(key[0])
    requires forall m :: 0 <= m < |key| ==> !EndsBareKey(key[m])
    requires |rest| > 0 && EndsBareKey(rest[0])
    ensures '\0' !in key + rest && KeyAt(key + rest, 0) == Ok((key, |key|))
  {
    var s: Text := key + rest;
    ScanUntilIs(s, 0, EndsBareKey, |key|);
    assert s[..|key|] == key;
  }

  /** A quoted key is the decoded text of its literal. */
  lemma QuotedKeyRoundTrip(t: Text, rest: Text)
    ensures var lit := ['"'] + Escape(t) + ['"'] + rest;
      '\0' !in lit && KeyAt(lit, 0).Ok? && KeyAt(lit, 0).value.0 == t
  {
    QuotedRoundTrip(t, rest);
  }

  /**
   * Src/Rjson.cpp:169-194. The source appends to a `key` string that every
   * caller passes in empty; this method returns that key.
   */
  method ParseKey(s: Text, i: nat) returns (r: Result<(string, nat), Error>)
    requires i <= |s|
    ensures r == KeyAt(s, i)
  {
    if At(s, i) == '"' {
      var key :- ParseString(s, i, "");
      assert key == DecodedString(s, i).value;
      var next := SkipString(s, i);
      return Ok((key, next));
    } else if IsAlpha(At(s, i)) {
      var key := "";
      var j := i;
      while true
        invariant i <= j <= |s|
        invariant key == s[i..j]
        invariant ScanUntil(s, j, EndsBareKey) == ScanUntil(s, i, EndsBareKey)
        decreases |s| - j
      {
        // The source's loop has no terminator test: reaching it is a failure here.
        if j == |s| {
          return Fail(PastEnd(j));
        }
        if IsSpace(s[j]) || s[j] == '=' {
          return Ok((key, j));
        }
        key := key + [s[j]];
        j := j + 1;
      }
    }
    return Fail(BadKey(i));
  }

  // ---------------------------------------------------------------------------
  // parseDouble (the lexeme only)

  predicate NotDigit(c: char) { !IsDigit(c) }

  /** The stages of parseDouble: past the optional '-', ... */
  function AfterSign(s: Text, i: nat): (p: nat)
    requires i <= |s|
    ensures i <= p <= |s|
    ensures p == i + 1 <==> At(s, i) == '-'
    ensures p == i || p == i + 1
  {
    if At(s, i) == '-' then i + 1 else i
  }

  /** ... past the integer digits, ... */
  function AfterWhole(s: Text, i: nat): (p: nat)
    requires i <= |s|
    ensures AfterSign(s, i) <= p <= |s|
    ensures forall m :: AfterSign(s, i) <= m < p ==> IsDigit(s[m])
    ensures p == |s| || !IsDigit(s[p])
  {
    ScanUntil(s, AfterSign(s, i), NotDigit)
  }

  /** The fraction stage from position `p`: an optional '.' and the digits after it. */
  function FractionEnd(s: Text, p: nat): (r: nat)
    requires p <= |s|
    ensures p <= r <= |s|
    ensures At(s, p) != '.' <==> r == p
  {
    if At(s, p) == '.' then ScanUntil(s, p + 1, NotDigit) else p
  }

  /** ... past an optional '.' and its digits, ... */
  function AfterFraction(s: Text, i: nat): (p: nat)
    requires i <= |s|
    ensures AfterWhole(s, i) <= p <= |s|
    ensures p == AfterWhole(s, i) <==> At(s, AfterWhole(s, i)) != '.'
    ensures forall m :: AfterWhole(s, i) < m < p ==> IsDigit(s[m])
    ensures p == |s| || !IsDigit(s[p])
  {
    FractionEnd(s, AfterWhole(s, i))
  }

  /**
   * The exponent stage from position `p`: an optional 'e' or 'E', then an
   * optional '-' or '+', then the digits.
   */
  function ExponentEnd(s: Text, p: nat): (r: nat)
    requires p <= |s|
    ensures p <= r <= |s|
    ensures At(s, p) != 'e' && At(s, p) != 'E' <==> r == p
  {
    if At(s, p) == 'e' || At(s, p) == 'E' then
      var q := if At(s, p + 1) == '-' || At(s, p + 1) == '+' then p + 2 else p + 1;
      ScanUntil(s, q, NotDigit)
    else
      p
  }

  /** ... and past the exponent. */
  function NumberEnd(s: Text, i: nat): (e: nat)
    requires i <= |s|
    ensures AfterFraction(s, i) <= e <= |s|
    ensures e == AfterFraction(s, i) <==> At(s, AfterFraction(s, i)) != 'e' && At(s, AfterFraction(s, i)) != 'E'
    ensures e > AfterFraction(s, i) ==> e == |s| || !IsDigit(s[e])
  {
    ExponentEnd(s, AfterFraction(s, i))
  }

  /** The characters parseDouble accumulates from `i`, in order: exactly the ones it consumes. */
  function Lexeme(s: Text, i: nat): (w: string)
    requires i <= |s|
    ensures |w| == NumberEnd(s, i) - i
    ensures forall k :: 0 <= k < |w| ==> w[k] == s[i + k]
  {
    s[i..NumberEnd(s, i)]
  }

  /** The parts of a number literal: sign, integer digits, fraction and exponent. */
  datatype NumberParts = NumberParts(
    negative: bool,
    whole: string,
    fraction: Option<string>,
    exponent: Option<(char, Option<char>, string)>)

  predicate AllDigits(d: string) {
    forall k :: 0 <= k < |d| ==> IsDigit(d[k])
  }

  /** Well-formed parts: digit runs, an 'e' or 'E' marker and a '+' or '-' exponent sign. */
  predicate WellFormed(n: NumberParts) {
    && AllDigits(n.whole)
    && (n.fraction.Some? ==> AllDigits(n.fraction.value))
    && (n.exponent.Some? ==>
          var (mark, sign, digits) := n.exponent.value;
          (mark == 'e' || mark == 'E') &&
          (sign.Some? ==> sign.value == '-' || sign.value == '+') &&
          AllDigits(digits))
  }

  /** The text of a number literal made of the given parts. */
  function Render(n: NumberParts): string {
    (if n.negative then "-" else "") + n.whole +
    (match n.fraction case None => "" case Some(f) => "." + f) +
    (match n.exponent
     case None => ""
     case Some(x) => [x.0] + (match x.1 case None => "" case Some(c) => [c]) + x.2)
  }

  /** A digit run followed by a non-digit (or the end) is scanned exactly. */
  lemma DigitRun(s: Text, p: nat, d: string)
    requires p + |d| <= |s| && s[p..p + |d|] == d && AllDigits(d)
    requires p + |d| < |s| ==> !IsDigit(s[p + |d|])
    ensures ScanUntil(s, p, NotDigit) == p + |d|
  {
    forall m | p <= m < p + |d| ensures !NotDigit(s[m]) {
      assert s[m] == s[p..p + |d|][m - p];
    }
    ScanUntilIs(s, p, NotDigit, p + |d|);
  }

  /** The sign part of a rendering. */
  function SignText(n: NumberParts): string {
    if n.negative then "-" else ""
  }

  /** The fraction part of a rendering, with its '.'. */
  function FractionText(n: NumberParts): string {
    match n.fraction case None => "" case Some(f) => "." + f
  }

  /** The exponent sign of a rendering. */
  function ExponentSignText(n: NumberParts): string
    requires n.exponent.Some?
  {
    match n.exponent.value.1 case None => "" case Some(c) => [c]
  }

  /** The exponent part of a rendering, with its marker. */
  function ExponentText(n: NumberParts): string {
    match n.exponent
    case None => ""
    case Some(x) => [x.0] + ExponentSignText(n) + x.2
  }

  lemma RenderParts(n: NumberParts)
    ensures Render(n) == SignText(n) + n.whole + FractionText(n) + ExponentText(n)
  {
  }

  /** A rendering followed by more text, grouped the way the scanning stages see it. */
  lemma RenderLayout(n: NumberParts, rest: string)
    ensures Render(n) + rest == SignText(n) + n.whole + (FractionText(n) + (ExponentText(n) + rest))
  {
    RenderParts(n);
  }

  lemma RenderHasNoNul(n: NumberParts)
    requires WellFormed(n)
    ensures '\0' !in Render(n)
  {
    RenderParts(n);
    assert '\0' !in SignText(n);
    assert '\0' !in n.whole;
    assert '\0' !in FractionText(n);
    assert '\0' !in ExponentText(n);
  }

  /** The position after the sign stage of a rendered literal. */
  lemma SignStage(n: NumberParts, s: Text, tail: string)
    requires s == SignText(n) + n.whole + tail
    requires WellFormed(n)
    requires tail != [] ==> !IsDigit(tail[0]) && tail[0] != '-'
    ensures AfterSign(s, 0) == |SignText(n)|
    ensures AfterWhole(s, 0) == |SignText(n)| + |n.whole|
  {
    var p0 := |SignText(n)|;
    if n.negative {
      assert s[0] == SignText(n)[0];
    } else if |s| > 0 {
      if n.whole != [] {
        assert s[0] == n.whole[0];
      } else {
        assert s[0] == tail[0];
      }
    }
    assert s[p0..p0 + |n.whole|] == n.whole;
    if p0 + |n.whole| < |s| {
      assert s[p0 + |n.whole|] == tail[0];
    }
    DigitRun(s, p0, n.whole);
  }

  /** The position after the fraction stage of a rendered literal. */
  lemma FractionStage(n: NumberParts, s: Text, p1: nat, tail: string)
    requires p1 <= |s| && s[p1..] == FractionText(n) + tail
    requires WellFormed(n)
    requires tail != [] ==> !IsDigit(tail[0]) && tail[0] != '.'
    ensures FractionEnd(s, p1) == p1 + |FractionText(n)|
  {
    if n.fraction.None? {
      if p1 < |s| {
        assert s[p1] == s[p1..][0] == tail[0];
      }
    } else {
      var f := n.fraction.value;
      assert s[p1] == s[p1..][0] == '.';
      assert s[p1 + 1..p1 + 1 + |f|] == s[p1..][1..1 + |f|] == f;
      if p1 + 1 + |f| < |s| {
        assert s[p1 + 1 + |f|] == s[p1..][1 + |f|] == tail[0];
      }
      DigitRun(s, p1 + 1, f);
    }
  }

  /** A buffer laid out from `p` as a marker, an optional sign, digits and the rest. */
  lemma ExponentLayout(s: seq<char>, p: nat, mark: char, sign: seq<char>, digits: seq<char>, rest: seq<char>)
    requires |sign| <= 1
    requires p <= |s| && s[p..] == [mark] + sign + digits + rest
    ensures p < |s| && s[p] == mark
    ensures |sign| == 1 ==> p + 1 < |s| && s[p + 1] == sign[0]
    ensures |sign| == 0 && p + 1 < |s| ==> s[p + 1] == (digits + rest)[0]
    ensures p + 1 + |sign| + |digits| <= |s|
    ensures s[p + 1 + |sign|..p + 1 + |sign| + |digits|] == digits
    ensures p + 1 + |sign| + |digits| < |s| ==> rest != [] && s[p + 1 + |sign| + |digits|] == rest[0]
  {
    var t := s[p..];
    var q := 1 + |sign|;
    assert t[0] == mark;
    if |sign| == 1 {
      assert t[1] == sign[0];
    } else if p + 1 < |s| {
      assert t[1] == (digits + rest)[0];
    }
    assert t[q..q + |digits|] == digits;
    assert s[p + q..p + q + |digits|] == t[q..q + |digits|];
    if p + q + |digits| < |s| {
      assert t[q + |digits|] == rest[0];
    }
  }

  /** The position after the exponent stage of a rendered literal. */
  lemma ExponentStage(n: NumberParts, s: Text, p2: nat, rest: string)
    requires p2 <= |s| && s[p2..] == ExponentText(n) + rest
    requires WellFormed(n)
    requires rest != [] ==> IsValueDelimiter(rest[0])
    ensures ExponentEnd(s, p2) == p2 + |ExponentText(n)|
  {
    if n.exponent.None? {
      if p2 < |s| {
        assert s[p2] == s[p2..][0] == rest[0];
      }
    } else {
      var x := n.exponent.value;
      var sgn := ExponentSignText(n);
      ExponentLayout(s, p2, x.0, sgn, x.2, rest);
      var q := p2 + 1 + |sgn|;
      if x.1.None? && p2 + 1 < |s| {
        if x.2 != [] {
          assert s[p2 + 1] == x.2[0];
        } else {
          assert s[p2 + 1] == rest[0];
        }
      }
      DigitRun(s, q, x.2);
    }
  }

  /** What may follow the digits of the whole part, and of the fraction. */
  lemma TailHeads(n: NumberParts, rest: Text)
    requires WellFormed(n)
    requires rest != [] ==> IsValueDelimiter(rest[0])
    ensures var t := FractionText(n) + (ExponentText(n) + rest);
      t != [] ==> !IsDigit(t[0]) && t[0] != '-'
    ensures var t := ExponentText(n) + rest;
      t != [] ==> !IsDigit(t[0]) && t[0] != '.'
  {
    var fr, ex := FractionText(n), ExponentText(n);
    if ex != [] {
      assert (ex + rest)[0] == ex[0];
    } else if rest != [] {
      assert (ex + rest)[0] == rest[0];
    }
    if fr != [] {
      assert (fr + (ex + rest))[0] == '.';
    }
  }

  /** The sign and whole stages of a rendered literal, and the text they leave. */
  lemma WholeStages(n: NumberParts, rest: Text, s: Text)
    requires WellFormed(n)
    requires rest != [] ==> IsValueDelimiter(rest[0])
    requires s == SignText(n) + n.whole + (FractionText(n) + (ExponentText(n) + rest))
    ensures AfterWhole(s, 0) == |SignText(n)| + |n.whole| <= |s|
    ensures s[AfterWhole(s, 0)..] == FractionText(n) + (ExponentText(n) + rest)
  {
    var tail1 := FractionText(n) + (ExponentText(n) + rest);
    TailHeads(n, rest);
    SignStage(n, s, tail1);
    SuffixOfJoin(SignText(n) + n.whole, tail1);
  }

  /** The sign, whole and fraction stages of a rendered literal together. */
  lemma FrontStages(n: NumberParts, rest: Text, s: Text)
    requires WellFormed(n)
    requires rest != [] ==> IsValueDelimiter(rest[0])
    requires s == SignText(n) + n.whole + (FractionText(n) + (ExponentText(n) + rest))
    ensures |SignText(n)| + |n.whole| + |FractionText(n)| <= |s|
    ensures AfterFraction(s, 0) == |SignText(n)| + |n.whole| + |FractionText(n)|
    ensures s[AfterFraction(s, 0)..] == ExponentText(n) + rest
  {
    var fr, tail2 := FractionText(n), ExponentText(n) + rest;
    WholeStages(n, rest, s);
    var p1 := AfterWhole(s, 0);
    TailHeads(n, rest);
    FractionStage(n, s, p1, tail2);
    SuffixOfSuffix(s, p1, |fr|);
    SuffixOfJoin(fr, tail2);
  }

  /** Where the number ends in a buffer laid out as the parts of a literal and a delimiter. */
  lemma NumberEndOfParts(n: NumberParts, rest: Text, s: Text)
    requires WellFormed(n)
    requires rest != [] ==> IsValueDelimiter(rest[0])
    requires s == SignText(n) + n.whole + (FractionText(n) + (ExponentText(n) + rest))
    ensures NumberEnd(s, 0) == |SignText(n)| + |n.whole| + |FractionText(n)| + |ExponentText(n)|
  {
    FrontStages(n, rest, s);
    ExponentStage(n, s, AfterFraction(s, 0), rest);
  }

  /**
   * A well-formed number literal followed by a value delimiter (or the end of
   * the buffer) is exactly the lexeme parseDouble accumulates.
   */
  lemma LexemeOfLiteral(n: NumberParts, rest: Text)
    requires WellFormed(n)
    requires rest != [] ==> IsValueDelimiter(rest[0])
    ensures '\0' !in Render(n) + rest && Lexeme(Render(n) + rest, 0) == Render(n)
  {
    RenderHasNoNul(n);
    RenderLayout(n, rest);
    var s: Text := Render(n) + rest;
    NumberEndOfParts(n, rest, s);
    PrefixOfJoin(Render(n), rest);
  }

  /** The fraction digits the fraction stage passes from `p`, when it is on '.'. */
  function FractionDigitsAt(s: Text, p: nat): Option<string>
    requires p <= |s|
  {
    if At(s, p) == '.' then Some(s[p + 1..FractionEnd(s, p)]) else None
  }

  /** The marker, sign and digits the exponent stage passes from `p`, when it is on 'e' or 'E'. */
  function ExponentPartsAt(s: Text, p: nat): Option<(char, Option<char>, string)>
    requires p <= |s|
  {
    if At(s, p) == 'e' || At(s, p) == 'E' then
      var signed := At(s, p + 1) == '-' || At(s, p + 1) == '+';
      var q := if signed then p + 2 else p + 1;
      Some((s[p], if signed then Some(s[p + 1]) else None, s[q..ExponentEnd(s, p)]))
    else
      None
  }

  /** The parts of the number at `i`, read off the stages of parseDouble. */
  function PartsAt(s: Text, i: nat): NumberParts
    requires i <= |s|
  {
    NumberParts(At(s, i) == '-', s[AfterSign(s, i)..AfterWhole(s, i)],
                FractionDigitsAt(s, AfterWhole(s, i)), ExponentPartsAt(s, AfterFraction(s, i)))
  }

  /** The characters a digit scan passes are digits. */
  lemma ScannedDigits(s: Text, p: nat)
    requires p <= |s|
    ensures AllDigits(s[p..ScanUntil(s, p, NotDigit)])
  {
    var r := ScanUntil(s, p, NotDigit);
    forall k | 0 <= k < r - p ensures IsDigit(s[p..r][k]) {
      assert s[p..r][k] == s[p + k];
      assert !NotDigit(s[p + k]);
    }
  }

  /** The sign and whole parts are the text before the fraction stage. */
  lemma SignWholeShape(s: Text, i: nat)
    requires i <= |s|
    ensures SignText(PartsAt(s, i)) + PartsAt(s, i).whole == s[i..AfterWhole(s, i)]
    ensures AllDigits(PartsAt(s, i).whole)
  {
    ScannedDigits(s, AfterSign(s, i));
    SliceJoin(s, i, AfterSign(s, i), AfterWhole(s, i));
    if At(s, i) == '-' {
      assert s[i..i + 1] == "-";
    } else {
      assert s[i..i] == "";
    }
  }

  /** The fraction part is the text the fraction stage passes. */
  lemma FractionShape(s: Text, p: nat)
    requires p <= |s|
    ensures var n := NumberParts(false, "", FractionDigitsAt(s, p), None);
      FractionText(n) == s[p..FractionEnd(s, p)] &&
      (n.fraction.Some? ==> AllDigits(n.fraction.value))
  {
    if At(s, p) == '.' {
      ScannedDigits(s, p + 1);
      SliceJoin(s, p, p + 1, FractionEnd(s, p));
      assert s[p..p + 1] == ".";
    }
  }

  /** The exponent part is the text the exponent stage passes. */
  lemma ExponentShape(s: Text, p: nat)
    requires p <= |s|
    ensures var n := NumberParts(false, "", None, ExponentPartsAt(s, p));
      ExponentText(n) == s[p..ExponentEnd(s, p)] && WellFormed(n)
  {
    if At(s, p) == 'e' || At(s, p) == 'E' {
      var n := NumberParts(false, "", None, ExponentPartsAt(s, p));
      var signed := At(s, p + 1) == '-' || At(s, p + 1) == '+';
      var q := if signed then p + 2 else p + 1;
      var r := ExponentEnd(s, p);
      ScannedDigits(s, q);
      SliceJoin(s, p, q, r);
      if signed {
        SliceJoin(s, p, p + 1, q);
        assert s[p..p + 1] == [s[p]] && s[p + 1..q] == [s[p + 1]];
        assert ExponentSignText(n) == [s[p + 1]];
      } else {
        assert s[p..q] == [s[p]];
        assert ExponentSignText(n) == "";
      }
    }
  }

  /**
   * The converse of LexemeOfLiteral: whatever the buffer holds, the lexeme
   * parseDouble accumulates is a well-formed number literal (an optional '-',
   * digits, an optional '.' and digits, an optional marker, sign and digits).
   */
  lemma LexemeShape(s: Text, i: nat)
    requires i <= |s|
    ensures exists n :: WellFormed(n) && Lexeme(s, i) == Render(n)
  {
    var n := PartsAt(s, i);
    var p1, p2 := AfterWhole(s, i), AfterFraction(s, i);
    SignWholeShape(s, i);
    FractionShape(s, p1);
    ExponentShape(s, p2);
    assert FractionText(n) == s[p1..p2];
    assert ExponentText(n) == s[p2..NumberEnd(s, i)];
    RenderParts(n);
    SliceJoin(s, i, p1, p2);
    SliceJoin(s, i, p2, NumberEnd(s, i));
    assert WellFormed(n);
  }

  /**
   * One of parseDouble's digit loops: pushes the digits from `j` onto `number`
   * and stops at the first non-digit (or at the end of the buffer).
   */
  method PushDigits(s: Text, j: nat, number: string) returns (k: nat, pushed: string)
    requires j <= |s|
    ensures k == ScanUntil(s, j, NotDigit)
    ensures pushed == number + s[j..k]
  {
    k := j;
    pushed := number;
    while IsDigit(At(s, k))
      invariant j <= k <= |s|
      invariant pushed == number + s[j..k]
      invariant ScanUntil(s, k, NotDigit) == ScanUntil(s, j, NotDigit)
      decreases |s| - k
    {
      SliceSnoc(s, j, k);
      pushed := pushed + [s[k]];
      k := k + 1;
    }
  }

  /** parseDouble's fraction stage: a '.' and the digits after it, if present. */
  method PushFraction(s: Text, j: nat, number: string) returns (k: nat, pushed: string)
    requires j <= |s|
    ensures k == FractionEnd(s, j)
    ensures pushed == number + s[j..k]
  {
    k, pushed := j, number;
    if At(s, j) == '.' {
      var digits;
      k, digits := PushDigits(s, j + 1, number + ['.']);
      pushed := digits;
      SliceJoin(s, j, j + 1, k);
    }
  }

  /** parseDouble's exponent stage: a marker, an optional sign and digits, if present. */
  method PushExponent(s: Text, j: nat, number: string) returns (k: nat, pushed: string)
    requires j <= |s|
    ensures k == ExponentEnd(s, j)
    ensures pushed == number + s[j..k]
  {
    k, pushed := j, number;
    if At(s, j) == 'e' || At(s, j) == 'E' {
      pushed := pushed + [s[j]];
      k := k + 1;
      if At(s, k) == '-' || At(s, k) == '+' {
        SliceSnoc(s, j, k);
        pushed := pushed + [s[k]];
        k := k + 1;
      }
      var q := k;
      k, pushed := PushDigits(s, q, pushed);
      SliceJoin(s, j, q, k);
    }
  }

  /**
   * Src/Rjson.cpp:196-240, up to the conversion: the characters pushed onto
   * `number`. Handing them to the string-to-double utility is not modelled.
   */
  method ParseDouble(s: Text, i: nat) returns (number: string)
    requires i <= |s|
    ensures number == Lexeme(s, i)
  {
    number := [];
    var j := i;
    if At(s, j) == '-' {
      number := number + ['-'];
      j := GetNext(s, j, '-').value;
    }
    assert number == s[i..j];
    var k;
    k, number := PushDigits(s, j, number);
    SliceJoin(s, i, j, k);
    j := k;
    k, number := PushFraction(s, j, number);
    SliceJoin(s, i, j, k);
    j := k;
    k, number := PushExponent(s, j, number);
    SliceJoin(s, i, j, k);
  }

  // ---------------------------------------------------------------------------
  // parseBool

  /** Src/Rjson.cpp:244-273: each letter is checked by getNext's expected-character test. */
  function ParseBool(s: Text, i: nat): (r: Result<bool, Error>)
    requires i <= |s|
    ensures r == Ok(true) <==> i + 4 <= |s| && s[i..i + 4] == "true"
    ensures r == Ok(false) <==> i + 5 <= |s| && s[i..i + 5] == "false"
    ensures At(s, i) != 't' && At(s, i) != 'f' ==> r == Fail(BadBoolean(i))
  {
    match At(s, i)
    case 't' =>
      var j1 := GetNext(s, i, 't').value;
      var j2 :- GetNext(s, j1, 'r');
      var j3 :- GetNext(s, j2, 'u');
      var j4 :- GetNext(s, j3, 'e');
      Ok(true)
    case 'f' =>
      var j1 := GetNext(s, i, 'f').value;
      var j2 :- GetNext(s, j1, 'a');
      var j3 :- GetNext(s, j2, 'l');
      var j4 :- GetNext(s, j3, 's');
      var j5 :- GetNext(s, j4, 'e');
      assert s[i..i + 5] == "false" by {
        assert s[i] == 'f' && s[i + 1] == 'a' && s[i + 2] == 'l' && s[i + 3] == 's' && s[i + 4] == 'e';
      }
      Ok(false)
    case _ => Fail(BadBoolean(i))
  }
}
