/**
 * The cursor-advancing primitives of the RJSON scanner (Src/Rjson.cpp):
 * getNext, skipComments, skipSpaces, skipString, skipValue and getJsonType.
 *
 * Each C function takes a pointer into the buffer; all but getJsonType, which
 * returns the kind of the value there, return an advanced pointer. Here a
 * cursor is an index `i <= |s|`; every `assert(false)` of the source is a
 * `Fail` carrying the offset where it fired.
 */
module RjsonScanner {
  import opened Outcomes
  import opened Text
  import opened JsonTypes

  /** The fatal conditions of the scanner, one per `assert(false)` of the source. */
  datatype Error =
    | Unexpected(pos: nat, expected: char, found: char)  // getNext's expected-character test
    | BadComment(pos: nat)     // '/' followed by neither '/' nor '*'
    | BadEscape(pos: nat)      // a backslash followed by a character outside the escape set
    | BadString(pos: nat)      // not on '"', or the buffer ends inside the literal
    | BadKey(pos: nat)         // a key starting with neither '"' nor a letter
    | BadBoolean(pos: nat)     // a boolean starting with neither 't' nor 'f'
    | BadObject(pos: nat)      // not on '{', or the buffer ends before '}'
    | PastEnd(pos: nat)        // a loop of the source with no end-of-buffer stop reached the terminator
    | NullCursor               // `assert(json != nullptr)`


  /**
   * The source's `getNext(json, c)`: step over one character; when `c` is not
   * '\0', the character stepped over must be `c`. The source never steps over
   * the terminator without naming an expected character.
   */
  function GetNext(s: Text, i: nat, c: char): (r: Result<nat, Error>)
    requires i <= |s|
    requires c != '\0' || i < |s|
    ensures r.Ok? <==> (c == '\0' || At(s, i) == c)
    ensures r.Ok? ==> r.value == i + 1 <= |s|
    ensures r.Fail? ==> r.error == Unexpected(i, c, At(s, i))
  {
    if c != '\0' && c != At(s, i) then Fail(Unexpected(i, c, At(s, i))) else Ok(i + 1)
  }

  predicate IsNewline(c: char) { c == '\n' }

  predicate IsStar(c: char) { c == '*' }

  // ---------------------------------------------------------------------------
  // skipComments

  /** Where `skipComments` leaves a cursor, as a function of the buffer. */
  function AfterComment(s: Text, i: nat): (r: Result<nat, Error>)
    requires i <= |s|
    ensures r.Ok? ==> i <= r.value <= |s|
    // not on '/': nothing moves
    ensures At(s, i) != '/' ==> r == Ok(i)
    ensures At(s, i) == '/' && r.Ok? ==> i < r.value
    // a line comment ends at (not past) the next newline, or at the end of the buffer
    ensures At(s, i) == '/' && At(s, i + 1) == '/' ==>
      r.Ok? && i + 2 <= r.value && (r.value == |s| || s[r.value] == '\n') &&
      forall m :: i + 2 <= m < r.value ==> s[m] != '\n'
    // a block comment ends just after the first '*', which must be followed by '/'
    ensures At(s, i) == '/' && At(s, i + 1) == '*' && r.Ok? ==>
      i + 4 <= r.value && s[r.value - 2] == '*' && s[r.value - 1] == '/' &&
      forall m :: i + 2 <= m < r.value - 2 ==> s[m] != '*'
    ensures At(s, i) == '/' && At(s, i + 1) == '*' ==>
      forall k :: i + 2 <= k < |s| - 1 && s[k] == '*' && s[k + 1] == '/' && '*' !in s[i + 2..k] ==>
        r == Ok(k + 2)
    // anything else after '/' is a bad comment
    ensures At(s, i) == '/' && At(s, i + 1) != '/' && At(s, i + 1) != '*' ==>
      r == Fail(BadComment(i + 1))
  {
    if At(s, i) != '/' then Ok(i)
    else if At(s, i + 1) == '/' then
      Ok(ScanUntil(s, i + 2, IsNewline))
    else if At(s, i + 1) == '*' then
      var k := ScanUntil(s, i + 2, IsStar);
      var k1 := GetNext(s, k, '*');
      if k1.Fail? then k1 else GetNext(s, k1.value, '/')
    else
      Fail(BadComment(i + 1))
  }

  /** A block comment whose first '*' is not followed by '/' (or that has no '*') fails. */
  lemma UnclosedBlockCommentFails(s: Text, i: nat)
    requires i + 1 < |s| && s[i] == '/' && s[i + 1] == '*'
    requires var k := ScanUntil(s, i + 2, IsStar); k == |s| || At(s, k + 1) != '/'
    ensures AfterComment(s, i).Fail?
  {
  }

  /** Src/Rjson.cpp:64-96. */
  method SkipComments(s: Text, i: nat) returns (r: Result<nat, Error>)
    requires i <= |s|
    ensures r == AfterComment(s, i)
  {
    var j := i;
    if At(s, j) == '/' {
      j := j + 1;
      if At(s, j) == '/' {
        j := GetNext(s, j, '/').value;  // cannot fail: the character is '/'
        while At(s, j) != '\0' && At(s, j) != '\n'
          invariant i + 2 <= j <= |s|
          invariant ScanUntil(s, j, IsNewline) == ScanUntil(s, i + 2, IsNewline)
          decreases |s| - j
        {
          j := j + 1;
        }
      } else if At(s, j) == '*' {
        j := j + 1;
        while At(s, j) != '\0' && At(s, j) != '*'
          invariant i + 2 <= j <= |s|
          invariant ScanUntil(s, j, IsStar) == ScanUntil(s, i + 2, IsStar)
          decreases |s| - j
        {
          j := j + 1;
        }
        j :- GetNext(s, j, '*');
        j :- GetNext(s, j, '/');
      } else {
        return Fail(BadComment(j));
      }
    }
    return Ok(j);
  }

  // ---------------------------------------------------------------------------
  // skipSpaces

  /** A character `skipSpaces` does not stop at (the terminator aside). */
  predicate IsSeparatorStart(c: char) {
    IsSpace(c) || c == ',' || c == '/'
  }

  /** Where `skipSpaces` leaves a cursor: past whitespace, commas and comments. */
  function AfterSeparators(s: Text, i: nat): (r: Result<nat, Error>)
    requires i <= |s|
    ensures r.Ok? ==> i <= r.value <= |s|
    ensures r.Ok? ==> r.value == |s| || !IsSeparatorStart(s[r.value])
    ensures i < |s| && !IsSeparatorStart(s[i]) ==> r == Ok(i)
    decreases |s| - i
  {
    if i == |s| then Ok(i)
    else if s[i] == '/' then
      var j := AfterComment(s, i);
      if j.Fail? then j else AfterSeparators(s, j.value)
    else if IsSpace(s[i]) || s[i] == ',' then
      AfterSeparators(s, i + 1)
    else
      Ok(i)
  }

  /** Skipping separators twice lands where skipping them once does. */
  lemma SeparatorsIdempotent(s: Text, i: nat)
    requires i <= |s|
    requires AfterSeparators(s, i).Ok?
    ensures AfterSeparators(s, AfterSeparators(s, i).value) == AfterSeparators(s, i)
  {
  }

  /** Src/Rjson.cpp:98-110. */
  method SkipSpaces(s: Text, i: nat) returns (r: Result<nat, Error>)
    requires i <= |s|
    ensures r == AfterSeparators(s, i)
  {
    var j := i;
    while At(s, j) != '\0'
      invariant i <= j <= |s|
      invariant AfterSeparators(s, j) == AfterSeparators(s, i)
      decreases |s| - j
    {
      if s[j] == '/' {
        j :- SkipComments(s, j);
      } else if IsSpace(s[j]) || s[j] == ',' {
        j := j + 1;
      } else {
        break;
      }
    }
    return Ok(j);
  }

  // ---------------------------------------------------------------------------
  // skipString

  /**
   * The quote at `m` closes the literal opened at `i`: it is not preceded by a
   * backslash inside the literal. Only the immediately preceding character
   * counts, so in `"\\"` the last quote does not close (see README).
   */
  predicate ClosesString(s: Text, i: nat, m: nat) {
    i < m < |s| && s[m] == '"' && !(m > i + 1 && s[m - 1] == '\\')
  }

  /** The first closing quote at or after `m`, plus one; the end of the buffer if none. */
  function ClosingFrom(s: Text, i: nat, m: nat): (r: nat)
    requires i < m <= |s|
    ensures m <= r <= |s|
    ensures forall k :: m <= k < r - 1 ==> !ClosesString(s, i, k)
    ensures r < |s| ==> m < r && ClosesString(s, i, r - 1)
    decreases |s| - m
  {
    if m == |s| then m
    else if ClosesString(s, i, m) then m + 1
    else ClosingFrom(s, i, m + 1)
  }

  /**
   * Where `skipString` leaves a cursor on an opening quote: just after the
   * first closing quote, or at the end of the buffer when there is none.
   */
  function AfterString(s: Text, i: nat): (r: nat)
    requires i < |s|
    ensures i < r <= |s|
    ensures forall m :: i < m < r - 1 ==> !ClosesString(s, i, m)
    ensures r < |s| ==> i + 1 < r && ClosesString(s, i, r - 1)
  {
    ClosingFrom(s, i, i + 1)
  }

  /** Src/Rjson.cpp:23-47. */
  method SkipString(s: Text, i: nat) returns (r: nat)
    requires i < |s|
    ensures r == AfterString(s, i)
  {
    var j := i + 1;
    var escaped := false;
    while At(s, j) != '\0'
      invariant i < j <= |s|
      invariant escaped <==> (j > i + 1 && s[j - 1] == '\\')
      invariant ClosingFrom(s, i, j) == AfterString(s, i)
      decreases |s| - j
    {
      if s[j] == '"' && !escaped {
        return j + 1;
      } else if s[j] == '\\' {
        escaped := true;
      } else {
        escaped := false;
      }
      j := j + 1;
    }
    return j;
  }

  // ---------------------------------------------------------------------------
  // skipValue

  /**
   * `skipBlock` is called by the source but defined in no file of this model.
   * It is a parameter; all that is assumed of it is that, from a position in
   * the buffer, it moves strictly forward and stays within the buffer.
   */
  predicate Advances(s: Text, skipBlock: (nat, char, char) -> nat) {
    forall j: nat, open: char, close: char :: j < |s| ==> j < skipBlock(j, open, close) <= |s|
  }

  /** A character that ends a bare (unquoted, unbracketed) value. */
  predicate IsValueDelimiter(c: char) {
    c == ',' || c == '\n' || c == ' ' || c == '}' || c == ']'
  }

  /**
   * Where `skipValue` leaves a cursor. The source's scalar loop has no
   * end-of-buffer stop and runs past the terminator; the model reports that
   * as `PastEnd` instead of requiring a delimiter.
   */
  function AfterValue(s: Text, i: nat, skipBlock: (nat, char, char) -> nat): (r: Result<nat, Error>)
    requires i <= |s|
    requires Advances(s, skipBlock)
    ensures r.Ok? ==> i <= r.value <= |s|
    ensures At(s, i) == '"' ==> r == Ok(AfterString(s, i))
    ensures At(s, i) == '[' ==> r == Ok(skipBlock(i, '[', ']'))
    ensures At(s, i) == '{' ==> r == Ok(skipBlock(i, '{', '}'))
    ensures At(s, i) != '"' && At(s, i) != '[' && At(s, i) != '{' ==>
      (r.Ok? ==> r.value < |s| && IsValueDelimiter(s[r.value]) &&
                 forall m :: i <= m < r.value ==> !IsValueDelimiter(s[m])) &&
      (r.Fail? ==> r.error == PastEnd(|s|) && forall m :: i <= m < |s| ==> !IsValueDelimiter(s[m]))
  {
    match At(s, i)
    case '"' => Ok(AfterString(s, i))
    case '[' => Ok(skipBlock(i, '[', ']'))
    case '{' => Ok(skipBlock(i, '{', '}'))
    case _ =>
      var e := ScanUntil(s, i, IsValueDelimiter);
      if e == |s| then Fail(PastEnd(e)) else Ok(e)
  }

  /** Src/Rjson.cpp:49-62. */
  method SkipValue(s: Text, i: nat, skipBlock: (nat, char, char) -> nat) returns (r: Result<nat, Error>)
    requires i <= |s|
    requires Advances(s, skipBlock)
    ensures r == AfterValue(s, i, skipBlock)
  {
    match At(s, i)
    case '"' =>
      var j := SkipString(s, i);
      return Ok(j);
    case '[' => return Ok(skipBlock(i, '[', ']'));
    case '{' => return Ok(skipBlock(i, '{', '}'));
    case _ =>
      var j := i;
      // The source's loop has no terminator test: reaching it is a failure here.
      while j < |s| && !IsValueDelimiter(s[j])
        invariant i <= j <= |s|
        invariant ScanUntil(s, j, IsValueDelimiter) == ScanUntil(s, i, IsValueDelimiter)
        decreases |s| - j
      {
        j := j + 1;
      }
      if j == |s| {
        return Fail(PastEnd(j));
      }
      return Ok(j);
  }

  // ---------------------------------------------------------------------------
  // getJsonType

  /** Src/Rjson.cpp:112-122: the kind of the value at a cursor, by its first character. */
  function GetJsonType(s: Text, i: nat): (k: ValueKind)
    requires i <= |s|
    ensures k == String <==> At(s, i) == '"'
    ensures k == Number <==> At(s, i) == '-' || IsDigit(At(s, i))
    ensures k == Nil <==> At(s, i) == 'n'
    ensures k == Bool <==> At(s, i) != '"' && At(s, i) != '-' && !IsDigit(At(s, i)) && At(s, i) != 'n'
  {
    match At(s, i)
    case '"' => String
    case '-' => Number
    case _ => if IsDigit(At(s, i)) then Number else if At(s, i) == 'n' then Nil else Bool
  }
}
