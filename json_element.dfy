/**
 * The lazy element view of Src/JsonElement.cpp: an element is a nullable
 * cursor into a buffer, and every query re-scans the buffer from there.
 *
 * The C++ pointer carries both the buffer and the offset into it; here the
 * element's one field holds both, as a `Position`, or nothing for the null
 * pointer.
 */
module JsonElements {
  import opened Outcomes
  import opened Text
  import opened JsonTypes
  import opened RjsonScanner
  import opened RjsonTokens
  import opened RjsonObjects
  import opened KeyOrder

  /** A cursor together with the buffer it points into. */
  datatype Cursor = Cursor(text: Text, index: nat)

  /** A cursor on a character of its buffer or on the terminator. */
  type Position = c: Cursor | c.index <= |c.text| witness Cursor([], 0)

  /** `int32_t` and `uint32_t`, the result types of toInt and toUint. */
  newtype int32 = x: int | -0x8000_0000 <= x < 0x8000_0000
  newtype uint32 = x: int | 0 <= x < 0x1_0000_0000

  /**
   * The result of a numeric accessor: the caller's default, or the conversion
   * of the number lexeme at the cursor. The conversion itself (a floating-point
   * parse followed by a cast) is not modelled; only the lexeme it is given is.
   */
  datatype Numeric<T> = Default(value: T) | Converted(lexeme: string)

  class JsonElement {
    /** `jsonCurrentPos`; `None` is the null pointer. */
    var current: Option<Position>

    /** Src/JsonElement.cpp:9-12: the nil element. */
    constructor ()
      ensures current == None
    {
      current := None;
    }

    /** Src/JsonElement.cpp:14-17. */
    constructor FromPosition(at: Position)
      ensures current == Some(at)
    {
      current := Some(at);
    }

    /** Src/JsonElement.cpp:19-22: only the position is copied. */
    constructor Copy(other: JsonElement)
      ensures current == other.current
    {
      current := other.current;
    }

    /** Src/JsonElement.cpp:24-29: only the position is copied. */
    method Assign(other: JsonElement)
      modifies this
      ensures current == old(other.current)
    {
      current := other.current;
    }

    // -------------------------------------------------------------------------
    // The type predicates (Src/JsonElement.cpp:76-111)

    /** The null element, or a value starting with 'n'. */
    predicate IsNil()
      reads this
      ensures IsNil() <==> current.None? || At(current.value.text, current.value.index) == 'n'
    {
      current.None? || GetJsonType(current.value.text, current.value.index) == Nil
    }

    /** A value starting with anything that is not '"', '-', a digit or 'n'. */
    predicate IsBool()
      reads this
      ensures IsBool() <==> (current.Some? &&
        var c := At(current.value.text, current.value.index);
        c != '"' && c != '-' && !IsDigit(c) && c != 'n')
    {
      current.Some? && GetJsonType(current.value.text, current.value.index) == Bool
    }

    /** A value starting with '-' or a digit. */
    predicate IsNumber()
      reads this
      ensures IsNumber() <==> (current.Some? &&
        var c := At(current.value.text, current.value.index);
        c == '-' || IsDigit(c))
    {
      current.Some? && GetJsonType(current.value.text, current.value.index) == Number
    }

    /** A value starting with '"'. */
    predicate IsString()
      reads this
      ensures IsString() <==> current.Some? && At(current.value.text, current.value.index) == '"'
    {
      current.Some? && GetJsonType(current.value.text, current.value.index) == String
    }

    // -------------------------------------------------------------------------
    // The accessors (Src/JsonElement.cpp:31-61)

    /** The caller's default for nil; otherwise parseBool at the cursor. */
    function ToBool(def: bool): (r: Result<bool, Error>)
      reads this
      ensures IsNil() ==> r == Ok(def)
      ensures !IsNil() ==>
        var p := current.value;
        (r == Ok(true) <==> p.index + 4 <= |p.text| && p.text[p.index..p.index + 4] == "true") &&
        (r == Ok(false) <==> p.index + 5 <= |p.text| && p.text[p.index..p.index + 5] == "false") &&
        (At(p.text, p.index) != 't' && At(p.text, p.index) != 'f' ==> r == Fail(BadBoolean(p.index)))
    {
      if IsNil() then Ok(def) else ParseBool(current.value.text, current.value.index)
    }

    /** The caller's default exactly for nil; otherwise the number lexeme at the cursor. */
    function ToInt(def: int32): (r: Numeric<int32>)
      reads this
      ensures r.Default? <==> IsNil()
      ensures r.Default? ==> r.value == def
      ensures r.Converted? ==>
        var p := current.value;
        |r.lexeme| == NumberEnd(p.text, p.index) - p.index &&
        forall k :: 0 <= k < |r.lexeme| ==> r.lexeme[k] == p.text[p.index + k]
    {
      if IsNil() then Default(def) else Converted(Lexeme(current.value.text, current.value.index))
    }

    /** As ToInt, for `uint32_t`. */
    function ToUint(def: uint32): (r: Numeric<uint32>)
      reads this
      ensures r.Default? <==> IsNil()
      ensures r.Default? ==> r.value == def
      ensures r.Converted? ==>
        var p := current.value;
        |r.lexeme| == NumberEnd(p.text, p.index) - p.index &&
        forall k :: 0 <= k < |r.lexeme| ==> r.lexeme[k] == p.text[p.index + k]
    {
      if IsNil() then Default(def) else Converted(Lexeme(current.value.text, current.value.index))
    }

    /** As ToInt, for `float`; the default is carried as a real number. */
    function ToFloat(def: real): (r: Numeric<real>)
      reads this
      ensures r.Default? <==> IsNil()
      ensures r.Default? ==> r.value == def
      ensures r.Converted? ==>
        var p := current.value;
        |r.lexeme| == NumberEnd(p.text, p.index) - p.index &&
        forall k :: 0 <= k < |r.lexeme| ==> r.lexeme[k] == p.text[p.index + k]
    {
      if IsNil() then Default(def) else Converted(Lexeme(current.value.text, current.value.index))
    }

    /**
     * The new contents of `str`: replaced by the default for nil, otherwise
     * `str` with the decoded string at the cursor appended.
     */
    method ToString(str: string, def: string) returns (r: Result<string, Error>)
      ensures IsNil() ==> r == Ok(def)
      ensures !IsNil() ==>
        var p := current.value;
        (r.Ok? <==> DecodedString(p.text, p.index).Ok?) &&
        (r.Ok? ==> r.value == str + DecodedString(p.text, p.index).value) &&
        (r.Fail? ==> r.error == DecodedString(p.text, p.index).error)
    {
      if IsNil() {
        return Ok(def);
      }
      r := ParseString(current.value.text, current.value.index, str);
    }

    // -------------------------------------------------------------------------
    // getJsonElementSize (Src/JsonElement.cpp:113-146)

    /**
     * 0 for the null element, 1 for nil, numbers and booleans, and the length of
     * the decoded string for a string. The classification is total, so the
     * source's `default` branch has no counterpart.
     */
    function Size(): (r: Result<nat, Error>)
      reads this
      ensures current.None? ==> r == Ok(0)
      ensures current.Some? && !IsString() ==> r == Ok(1)
      ensures IsString() ==>
        var d := DecodedString(current.value.text, current.value.index);
        (r.Ok? <==> d.Ok?) && (r.Ok? ==> r.value == |d.value|) && (r.Fail? ==> r.error == d.error)
    {
      if current.None? then
        Ok(0)
      else
        match GetJsonType(current.value.text, current.value.index)
        case Nil => Ok(1)
        case String =>
          var d :- DecodedString(current.value.text, current.value.index);
          Ok(|d|)
        case Number => Ok(1)
        case Bool => Ok(1)
    }

    // -------------------------------------------------------------------------
    // getAllKeys (Src/JsonElement.cpp:63-74)

    /**
     * `keys` with the keys of the object at the cursor appended in ascending
     * order, each once. The null element trips parseObject's null-pointer
     * assertion.
     */
    method GetAllKeys(keys: seq<string>, skipBlock: (nat, char, char) -> nat) returns (r: Result<seq<string>, Error>)
      requires current.Some? ==> Advances(current.value.text, skipBlock)
      ensures current.None? ==> r == Fail(NullCursor)
      ensures current.Some? ==>
        var parsed := ObjectEntries(current.value.text, current.value.index, skipBlock);
        (r.Ok? <==> parsed.Ok?) &&
        (r.Fail? ==> r.error == parsed.error) &&
        (r.Ok? ==>
          |keys| <= |r.value| && r.value[..|keys|] == keys &&
          StrictlySorted(r.value[|keys|..]) &&
          forall key :: key in r.value[|keys|..] <==> key in KeysOf(parsed.value))
    {
      if current.None? {
        return Fail(NullCursor);
      }
      var members :- ParseObject(current.value.text, current.value.index, skipBlock, map[]);
      var out := AppendInKeyOrder(keys, members.Keys);
      return Ok(out);
    }
  }

  /**
   * The iteration of Src/JsonElement.cpp:68-73: `keys` with every key of the
   * map pushed back in the map's order, ascending.
   */
  method AppendInKeyOrder(keys: seq<string>, mapKeys: set<string>) returns (out: seq<string>)
    ensures |keys| <= |out| && out[..|keys|] == keys
    ensures StrictlySorted(out[|keys|..])
    ensures forall key :: key in out[|keys|..] <==> key in mapKeys
  {
    out := keys;
    var remaining := mapKeys;
    // the map's iterator: always the least key not yet visited
    while remaining != {}
      invariant |keys| <= |out| && out[..|keys|] == keys
      invariant StrictlySorted(out[|keys|..])
      invariant forall key :: key in out[|keys|..] ==> key in mapKeys && key !in remaining
      invariant forall key :: key in mapKeys ==> key in remaining || key in out[|keys|..]
      invariant remaining <= mapKeys
      invariant forall k, key :: |keys| <= k < |out| && key in remaining ==> Less(out[k], key)
      decreases |remaining|
    {
      HasLeast(remaining);
      var least :| IsLeast(least, remaining);
      ghost var visited := out[|keys|..];
      out := out + [least];
      assert out[|keys|..] == visited + [least];
      remaining := remaining - {least};
    }
  }

  // ---------------------------------------------------------------------------
  // Properties of the element view

  /** A null element is nil, of no other kind, and of size 0. */
  lemma NullElement(e: JsonElement)
    requires e.current.None?
    ensures e.IsNil() && !e.IsBool() && !e.IsNumber() && !e.IsString()
    ensures e.Size() == Ok(0)
    ensures forall def :: e.ToBool(def) == Ok(def)
  {
  }

  /** A non-null element is of exactly one kind. */
  lemma ExactlyOneKind(e: JsonElement)
    requires e.current.Some?
    ensures (if e.IsNil() then 1 else 0) + (if e.IsBool() then 1 else 0) +
            (if e.IsNumber() then 1 else 0) + (if e.IsString() then 1 else 0) == 1
  {
  }

  /** Elements holding the same position (a copy, or an assigned element) agree on every query. */
  lemma CopiesAgree(a: JsonElement, b: JsonElement)
    requires a.current == b.current
    ensures a.IsNil() == b.IsNil() && a.IsBool() == b.IsBool()
    ensures a.IsNumber() == b.IsNumber() && a.IsString() == b.IsString()
    ensures a.Size() == b.Size()
    ensures forall def :: a.ToBool(def) == b.ToBool(def)
    ensures forall def :: a.ToInt(def) == b.ToInt(def)
    ensures forall def :: a.ToUint(def) == b.ToUint(def)
    ensures forall def :: a.ToFloat(def) == b.ToFloat(def)
  {
  }

  /** The size of a string element is the length of the decoded text, not of the literal. */
  lemma StringSize(e: JsonElement, t: Text, rest: Text)
    requires e.current.Some? && e.current.value.index == 0
    requires e.current.value.text == ['"'] + Escape(t) + ['"'] + rest
    ensures e.IsString() && e.Size() == Ok(|t|)
  {
    QuotedRoundTrip(t, rest);
  }
}
