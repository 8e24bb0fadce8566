/**
 * The object readers of the RJSON scanner (Src/Rjson.cpp): parseRootObject,
 * parseObject and parse.
 *
 * The source fills a `std::map<std::string, const char*>` that maps every key
 * to a cursor on the first character of its value; values are not decoded
 * until they are asked for. Here the map is a `map<string, nat>` of cursors.
 * The members of an object are first described as the sequence of entries the
 * parser meets (`RootEntries`, `ObjectEntries`); the map the source builds is
 * then the result of assigning those entries in order (`Collect`).
 */
module RjsonObjects {
  import opened Outcomes
  import opened Text
  import opened RjsonScanner
  import opened RjsonTokens

  /** One `key = value` pair as the parser records it: the key and a cursor on the value. */
  datatype Entry = Entry(key: string, value: nat)

  /** A parsed member and the cursor left after its value and the separators that follow. */
  datatype Member = Member(entry: Entry, next: nat)

  // ---------------------------------------------------------------------------
  // One member

  /**
   * The body shared by the loops of parseRootObject and parseObject: a key,
   * separators, '=', separators (the value's cursor is taken here), the value,
   * and the separators after it.
   */
  function MemberAt(s: Text, i: nat, skipBlock: (nat, char, char) -> nat): (r: Result<Member, Error>)
    requires i <= |s|
    requires Advances(s, skipBlock)
    // the value cursor is on a character of the buffer, and the member moves the cursor forward
    ensures r.Ok? ==> i < r.value.entry.value <= r.value.next <= |s| && r.value.entry.value < |s|
    // the cursor is left on the next member (or the end), past all separators
    ensures r.Ok? ==> r.value.next == |s| || !IsSeparatorStart(s[r.value.next])
  {
    var key :- KeyAt(s, i);
    var e :- AfterSeparators(s, key.1);
    var afterEquals :- GetNext(s, e, '=');
    var value :- AfterSeparators(s, afterEquals);
    var end :- AfterValue(s, value, skipBlock);
    var next :- AfterSeparators(s, end);
    Ok(Member(Entry(key.0, value), next))
  }

  /** The key of a member is the one parseKey reads; a key that cannot be read is the error. */
  lemma MemberKey(s: Text, i: nat, skipBlock: (nat, char, char) -> nat)
    requires i <= |s|
    requires Advances(s, skipBlock)
    ensures KeyAt(s, i).Fail? ==> MemberAt(s, i, skipBlock) == Fail(KeyAt(s, i).error)
    ensures MemberAt(s, i, skipBlock).Ok? ==>
      KeyAt(s, i).Ok? && MemberAt(s, i, skipBlock).value.entry.key == KeyAt(s, i).value.0
  {
  }

  /**
   * The value cursor of a member is just past the separators that follow an
   * '=', which itself follows the key and separators.
   */
  lemma MemberValueFollowsEquals(s: Text, i: nat, skipBlock: (nat, char, char) -> nat)
    requires i <= |s|
    requires Advances(s, skipBlock)
    requires MemberAt(s, i, skipBlock).Ok?
    ensures KeyAt(s, i).Ok?
    ensures exists e ::
      (KeyAt(s, i).value.1 <= e < |s| && s[e] == '=' &&
       AfterSeparators(s, KeyAt(s, i).value.1) == Ok(e) &&
       AfterSeparators(s, e + 1) == Ok(MemberAt(s, i, skipBlock).value.entry.value))
  {
    var key := KeyAt(s, i).value;
    var e := AfterSeparators(s, key.1).value;
    var afterEquals := GetNext(s, e, '=').value;
    var value := AfterSeparators(s, afterEquals).value;
    assert MemberAt(s, i, skipBlock).value.entry.value == value;
    assert e < |s| && s[e] == '=' && afterEquals == e + 1;
  }

  /** A key that is not followed by '=' (after separators) is rejected by getNext. */
  lemma MissingEqualsFails(s: Text, i: nat, skipBlock: (nat, char, char) -> nat)
    requires i <= |s|
    requires Advances(s, skipBlock)
    requires KeyAt(s, i).Ok? && AfterSeparators(s, KeyAt(s, i).value.1).Ok?
    ensures var p := AfterSeparators(s, KeyAt(s, i).value.1).value;
      At(s, p) != '=' ==> MemberAt(s, i, skipBlock) == Fail(Unexpected(p, '=', At(s, p)))
  {
  }

  /**
   * Src/Rjson.cpp:296-306 (and 330-340): one iteration of the member loops, up
   * to the value and the separators after it. The source stores the map entry
   * before skipping the value; the callers store it once this returns.
   */
  method ParseMember(s: Text, i: nat, skipBlock: (nat, char, char) -> nat) returns (r: Result<Member, Error>)
    requires i <= |s|
    requires Advances(s, skipBlock)
    ensures r == MemberAt(s, i, skipBlock)
  {
    var key :- ParseKey(s, i);
    var j :- SkipSpaces(s, key.1);
    j :- GetNext(s, j, '=');
    var value :- SkipSpaces(s, j);
    j :- SkipValue(s, value, skipBlock);
    j :- SkipSpaces(s, j);
    return Ok(Member(Entry(key.0, value), j));
  }

  // ---------------------------------------------------------------------------
  // The entries of an object

  /** `done` in front of the entries of a parse, failures passed through. */
  function Prefixed(done: seq<Entry>, r: Result<seq<Entry>, Error>): Result<seq<Entry>, Error> {
    if r.Fail? then r else Ok(done + r.value)
  }

  /** The value cursors of the entries are strictly increasing: each member is read after the last. */
  predicate Ascending(es: seq<Entry>) {
    forall k :: 0 <= k < |es| - 1 ==> es[k].value < es[k + 1].value
  }

  /** An entry in front of later, ascending entries keeps them ascending and within the bounds. */
  lemma ConsAscending(e: Entry, rest: seq<Entry>, lo: nat, hi: nat)
    requires lo < e.value < hi
    requires Ascending(rest)
    requires forall k :: 0 <= k < |rest| ==> e.value < rest[k].value < hi
    ensures Ascending([e] + rest)
    ensures forall k :: 0 <= k < |[e] + rest| ==> lo < ([e] + rest)[k].value < hi
  {
  }

  /** The entries parseRootObject meets from `i`: members up to the end of the buffer. */
  function RootEntries(s: Text, i: nat, skipBlock: (nat, char, char) -> nat): (r: Result<seq<Entry>, Error>)
    requires i <= |s|
    requires Advances(s, skipBlock)
    ensures i == |s| ==> r == Ok([])
    ensures i < |s| && MemberAt(s, i, skipBlock).Fail? ==> r == Fail(MemberAt(s, i, skipBlock).error)
    ensures r.Ok? ==> forall k :: 0 <= k < |r.value| ==> i < r.value[k].value < |s|
    ensures r.Ok? ==> Ascending(r.value)
    decreases |s| - i
  {
    if i == |s| then
      Ok([])
    else
      var m :- MemberAt(s, i, skipBlock);
      var rest :- RootEntries(s, m.next, skipBlock);
      ConsAscending(m.entry, rest, i, |s|);
      Ok([m.entry] + rest)
  }

  /**
   * The entries parseObject meets from `j`, inside the braces: members until
   * one is followed by '}'. Reaching the end of the buffer first is the source's
   * "Bad object" assertion.
   */
  function ObjectLoop(s: Text, j: nat, skipBlock: (nat, char, char) -> nat): (r: Result<seq<Entry>, Error>)
    requires j <= |s|
    requires Advances(s, skipBlock)
    ensures j == |s| ==> r == Fail(BadObject(j))
    ensures r.Ok? ==> |r.value| > 0 && '}' in s[j..]
    ensures r.Ok? ==> forall k :: 0 <= k < |r.value| ==> j < r.value[k].value < |s|
    ensures r.Ok? ==> Ascending(r.value)
    decreases |s| - j
  {
    if j == |s| then
      Fail(BadObject(j))
    else
      var m :- MemberAt(s, j, skipBlock);
      if At(s, m.next) == '}' then
        InSuffix(s, j, m.next);
        Ok([m.entry])
      else
        // the source skips separators once more; the cursor is already past them
        var k := AfterSeparators(s, m.next).value;
        var rest :- ObjectLoop(s, k, skipBlock);
        InLongerSuffix(s, j, k, '}');
        ConsAscending(m.entry, rest, j, |s|);
        Ok([m.entry] + rest)
  }

  /** The entries parseObject reads from the object at `i`. */
  function ObjectEntries(s: Text, i: nat, skipBlock: (nat, char, char) -> nat): (r: Result<seq<Entry>, Error>)
    requires i <= |s|
    requires Advances(s, skipBlock)
    ensures At(s, i) != '{' ==> r == Fail(BadObject(i))
    // an empty object: '{', separators, '}'
    ensures At(s, i) == '{' ==>
      var inside := AfterSeparators(s, i + 1);
      inside.Ok? && At(s, inside.value) == '}' ==> r == Ok([])
    // a closing brace is met before the end of the buffer
    ensures r.Ok? ==> '}' in s[i..]
    ensures r.Ok? ==> forall k :: 0 <= k < |r.value| ==> i < r.value[k].value < |s|
    ensures r.Ok? ==> Ascending(r.value)
  {
    if At(s, i) != '{' then
      Fail(BadObject(i))
    else
      var j := GetNext(s, i, '{').value;
      var inside :- AfterSeparators(s, j);
      if At(s, inside) == '}' then
        InSuffix(s, i, inside);
        Ok([])
      else
        var es :- ObjectLoop(s, inside, skipBlock);
        InLongerSuffix(s, i, inside, '}');
        Ok(es)
  }

  /** Some member of the loop, from `k`, is the last entry and is followed directly by '}'. */
  predicate ClosedBy(s: Text, k: nat, skipBlock: (nat, char, char) -> nat, last: Entry)
    requires k <= |s|
    requires Advances(s, skipBlock)
  {
    MemberAt(s, k, skipBlock).Ok? && MemberAt(s, k, skipBlock).value.entry == last &&
    At(s, MemberAt(s, k, skipBlock).value.next) == '}'
  }

  /** The loop from some position in `lo..|s|` ends on '}' after `last`. */
  predicate ClosedWithin(s: Text, lo: nat, skipBlock: (nat, char, char) -> nat, last: Entry)
    requires Advances(s, skipBlock)
  {
    exists k :: lo <= k < |s| && ClosedBy(s, k, skipBlock, last)
  }

  /**
   * The member loop of parseObject stops on the '}' that follows its last
   * member (and its separators), not on just any '}' later in the buffer.
   */
  lemma {:induction false} ObjectLoopCloses(s: Text, j: nat, skipBlock: (nat, char, char) -> nat)
    requires j <= |s|
    requires Advances(s, skipBlock)
    requires ObjectLoop(s, j, skipBlock).Ok?
    ensures var es := ObjectLoop(s, j, skipBlock).value;
      ClosedWithin(s, j, skipBlock, es[|es| - 1])
    decreases |s| - j
  {
    var es := ObjectLoop(s, j, skipBlock).value;
    ObjectLoopUnfold(s, j, skipBlock);
    var m := MemberAt(s, j, skipBlock).value;
    if At(s, m.next) == '}' {
      assert ClosedBy(s, j, skipBlock, es[|es| - 1]);
    } else {
      var k := AfterSeparators(s, m.next).value;
      var rest := ObjectLoop(s, k, skipBlock).value;
      ObjectLoopCloses(s, k, skipBlock);
      var c :| k <= c < |s| && ClosedBy(s, c, skipBlock, rest[|rest| - 1]);
      assert es[|es| - 1] == rest[|rest| - 1];
      assert j <= c < |s| && ClosedBy(s, c, skipBlock, es[|es| - 1]);
    }
  }

  /** One successful turn of the member loop: a member, then '}' or the rest of the loop. */
  lemma ObjectLoopUnfold(s: Text, j: nat, skipBlock: (nat, char, char) -> nat)
    requires j <= |s|
    requires Advances(s, skipBlock)
    requires ObjectLoop(s, j, skipBlock).Ok?
    ensures j < |s| && MemberAt(s, j, skipBlock).Ok?
    ensures var m := MemberAt(s, j, skipBlock).value;
      At(s, m.next) == '}' ==> ObjectLoop(s, j, skipBlock).value == [m.entry]
    ensures var m := MemberAt(s, j, skipBlock).value;
      At(s, m.next) != '}' ==>
        AfterSeparators(s, m.next) == Ok(m.next) && ObjectLoop(s, m.next, skipBlock).Ok? &&
        ObjectLoop(s, j, skipBlock).value == [m.entry] + ObjectLoop(s, m.next, skipBlock).value
  {
  }

  /**
   * parseObject succeeds only on a '}': right after '{' and separators for an
   * empty object, otherwise right after the last member.
   */
  lemma ObjectEntriesCloses(s: Text, i: nat, skipBlock: (nat, char, char) -> nat)
    requires i <= |s|
    requires Advances(s, skipBlock)
    requires ObjectEntries(s, i, skipBlock).Ok?
    ensures var es := ObjectEntries(s, i, skipBlock).value;
      (es == [] ==> AfterSeparators(s, i + 1).Ok? && At(s, AfterSeparators(s, i + 1).value) == '}') &&
      (es != [] ==> ClosedWithin(s, i + 1, skipBlock, es[|es| - 1]))
  {
    var es := ObjectEntries(s, i, skipBlock).value;
    assert At(s, i) == '{';
    ObjectEntriesUnfold(s, i, skipBlock);
    var inside := AfterSeparators(s, i + 1).value;
    if At(s, inside) != '}' {
      ObjectLoopCloses(s, inside, skipBlock);
      var c :| inside <= c < |s| && ClosedBy(s, c, skipBlock, es[|es| - 1]);
      assert i + 1 <= c < |s|;
    }
  }

  /** The object at a '{': empty when '}' follows the separators, otherwise the member loop. */
  lemma ObjectEntriesUnfold(s: Text, i: nat, skipBlock: (nat, char, char) -> nat)
    requires i < |s| && s[i] == '{'
    requires Advances(s, skipBlock)
    requires AfterSeparators(s, i + 1).Ok?
    ensures var inside := AfterSeparators(s, i + 1).value;
      ObjectEntries(s, i, skipBlock) ==
        if At(s, inside) == '}' then Ok([]) else ObjectLoop(s, inside, skipBlock)
  {
    assert GetNext(s, i, '{') == Ok(i + 1);
  }

  // ---------------------------------------------------------------------------
  // The map

  /** The keys the entries assign. */
  function KeysOf(es: seq<Entry>): set<string> {
    set k | 0 <= k < |es| :: es[k].key
  }

  /** Entry `k` is the last one in `es` that assigns its key. */
  predicate IsLast(es: seq<Entry>, k: nat)
    requires k < |es|
  {
    forall q :: k < q < |es| ==> es[q].key != es[k].key
  }

  /** The keys of the entries are those of all but the last, and the last's. */
  lemma KeysOfFront(es: seq<Entry>)
    requires es != []
    ensures KeysOf(es) == KeysOf(es[..|es| - 1]) + {es[|es| - 1].key}
  {
    var front := es[..|es| - 1];
    forall key | key in KeysOf(es) ensures key in KeysOf(front) + {es[|es| - 1].key} {
      var k :| 0 <= k < |es| && es[k].key == key;
      if k < |es| - 1 {
        assert front[k] == es[k];
      }
    }
    forall key | key in KeysOf(front) ensures key in KeysOf(es) {
      var k :| 0 <= k < |front| && front[k].key == key;
      assert es[k] == front[k];
    }
  }

  /** An entry that is last for its key, other than the final one, is last in the front too. */
  lemma LastOfFront(es: seq<Entry>)
    requires es != []
    ensures forall k :: 0 <= k < |es| - 1 && IsLast(es, k) ==> IsLast(es[..|es| - 1], k)
  {
  }

  /**
   * `object[key] = json` for each entry in turn: the map the source builds,
   * starting from the map the caller passed.
   */
  function Collect(m: map<string, nat>, es: seq<Entry>): (r: map<string, nat>)
    ensures r.Keys == m.Keys + KeysOf(es)
    // a repeated key keeps the value of its last occurrence
    ensures forall k :: 0 <= k < |es| && IsLast(es, k) ==> r[es[k].key] == es[k].value
    // keys no entry assigns keep the caller's value
    ensures forall key :: key in m && key !in KeysOf(es) ==> r[key] == m[key]
    decreases |es|
  {
    if es == [] then
      m
    else
      var front := es[..|es| - 1];
      var last := es[|es| - 1];
      KeysOfFront(es);
      LastOfFront(es);
      Collect(m, front)[last.key := last.value]
  }

  /** Assigning one more entry updates the map at that entry's key. */
  lemma CollectSnoc(m: map<string, nat>, es: seq<Entry>, e: Entry)
    ensures Collect(m, es + [e]) == Collect(m, es)[e.key := e.value]
  {
    assert (es + [e])[..|es|] == es;
  }

  /** The outcome of a parse into the caller's map: the collected map, or the parse's error. */
  function Collected(m: map<string, nat>, r: Result<seq<Entry>, Error>): Result<map<string, nat>, Error> {
    if r.Fail? then Fail(r.error) else Ok(Collect(m, r.value))
  }

  /** The loop invariants of the two parsers advance by one member. */
  lemma PrefixedStep(done: seq<Entry>, e: Entry, rest: Result<seq<Entry>, Error>)
    ensures Prefixed(done, if rest.Fail? then Fail(rest.error) else Ok([e] + rest.value)) ==
            Prefixed(done + [e], rest)
  {
    if rest.Ok? {
      assert done + ([e] + rest.value) == done + [e] + rest.value;
    }
  }

  /** One member of the root object, then the rest. */
  lemma RootEntriesStep(s: Text, j: nat, skipBlock: (nat, char, char) -> nat)
    requires j < |s|
    requires Advances(s, skipBlock)
    requires MemberAt(s, j, skipBlock).Ok?
    ensures var m := MemberAt(s, j, skipBlock).value;
      var rest := RootEntries(s, m.next, skipBlock);
      RootEntries(s, j, skipBlock) == if rest.Fail? then Fail(rest.error) else Ok([m.entry] + rest.value)
  {
  }

  // ---------------------------------------------------------------------------
  // The parsers

  /** Src/Rjson.cpp:290-308: members until the end of the buffer. */
  method ParseRootObject(s: Text, i: nat, skipBlock: (nat, char, char) -> nat, objectMap: map<string, nat>)
    returns (r: Result<map<string, nat>, Error>)
    requires i <= |s|
    requires Advances(s, skipBlock)
    ensures r == Collected(objectMap, RootEntries(s, i, skipBlock))
  {
    var j := i;
    var obj := objectMap;
    ghost var done: seq<Entry> := [];
    assert Prefixed(done, RootEntries(s, j, skipBlock)) == RootEntries(s, j, skipBlock) by {
      assert forall es: seq<Entry> :: done + es == es;
    }
    while At(s, j) != '\0'
      invariant i <= j <= |s|
      invariant obj == Collect(objectMap, done)
      invariant RootEntries(s, i, skipBlock) == Prefixed(done, RootEntries(s, j, skipBlock))
      decreases |s| - j
    {
      var m :- ParseMember(s, j, skipBlock);
      RootEntriesStep(s, j, skipBlock);
      PrefixedStep(done, m.entry, RootEntries(s, m.next, skipBlock));
      CollectSnoc(objectMap, done, m.entry);
      obj := obj[m.entry.key := m.entry.value];
      done := done + [m.entry];
      j := m.next;
    }
    assert done + [] == done;
    return Ok(obj);
  }

  /** Src/Rjson.cpp:310-351: '{', members until one is followed by '}'. */
  method ParseObject(s: Text, i: nat, skipBlock: (nat, char, char) -> nat, objectMap: map<string, nat>)
    returns (r: Result<map<string, nat>, Error>)
    requires i <= |s|
    requires Advances(s, skipBlock)
    ensures r == Collected(objectMap, ObjectEntries(s, i, skipBlock))
  {
    if At(s, i) != '{' {
      return Fail(BadObject(i));
    }
    var j := GetNext(s, i, '{').value;
    j :- SkipSpaces(s, j);
    if At(s, j) == '}' {
      // the source steps over the '}' and discards the cursor
      return Ok(objectMap);
    }
    var obj := objectMap;
    ghost var done: seq<Entry> := [];
    assert Prefixed(done, ObjectLoop(s, j, skipBlock)) == ObjectLoop(s, j, skipBlock) by {
      assert forall es: seq<Entry> :: done + es == es;
    }
    while At(s, j) != '\0'
      invariant i < j <= |s|
      invariant obj == Collect(objectMap, done)
      invariant ObjectEntries(s, i, skipBlock) == Prefixed(done, ObjectLoop(s, j, skipBlock))
      decreases |s| - j
    {
      var m :- ParseMember(s, j, skipBlock);
      CollectSnoc(objectMap, done, m.entry);
      obj := obj[m.entry.key := m.entry.value];
      if At(s, m.next) == '}' {
        return Ok(obj);
      }
      var again := SkipSpaces(s, m.next);
      j := again.value;
      PrefixedStep(done, m.entry, ObjectLoop(s, j, skipBlock));
      done := done + [m.entry];
    }
    return Fail(BadObject(j));
  }

  /** The entries `parse` reads: separators, then the root object's members. */
  function ParsedEntries(s: Text, skipBlock: (nat, char, char) -> nat): (r: Result<seq<Entry>, Error>)
    requires Advances(s, skipBlock)
    ensures AfterSeparators(s, 0).Fail? ==> r == Fail(AfterSeparators(s, 0).error)
    ensures AfterSeparators(s, 0) == Ok(|s|) ==> r == Ok([])
    ensures r.Ok? ==> forall k :: 0 <= k < |r.value| ==> r.value[k].value < |s|
    ensures r.Ok? ==> Ascending(r.value)
  {
    var j :- AfterSeparators(s, 0);
    RootEntries(s, j, skipBlock)
  }

  /** Src/Rjson.cpp:353-359. */
  method Parse(s: Text, skipBlock: (nat, char, char) -> nat, objectMap: map<string, nat>)
    returns (r: Result<map<string, nat>, Error>)
    requires Advances(s, skipBlock)
    ensures r == Collected(objectMap, ParsedEntries(s, skipBlock))
  {
    var j :- SkipSpaces(s, 0);
    r := ParseRootObject(s, j, skipBlock, objectMap);
  }

  // ---------------------------------------------------------------------------
  // Every map entry is a member read from the buffer

  /** The member at `p` is read as the entry `e`: its key and the cursor on its value. */
  predicate ReadAt(s: Text, p: nat, skipBlock: (nat, char, char) -> nat, e: Entry)
    requires Advances(s, skipBlock)
  {
    p < |s| && MemberAt(s, p, skipBlock).Ok? && MemberAt(s, p, skipBlock).value.entry == e
  }

  /** Some member at or after `lo` is read as the entry `e`. */
  predicate ReadWithin(s: Text, lo: nat, skipBlock: (nat, char, char) -> nat, e: Entry)
    requires Advances(s, skipBlock)
  {
    exists p :: lo <= p < |s| && ReadAt(s, p, skipBlock, e)
  }

  /** A member read from a later position is read from an earlier bound too. */
  lemma ReadWithinWiden(s: Text, lo: nat, hi: nat, skipBlock: (nat, char, char) -> nat, e: Entry)
    requires Advances(s, skipBlock)
    requires lo <= hi && ReadWithin(s, hi, skipBlock, e)
    ensures ReadWithin(s, lo, skipBlock, e)
  {
    var p :| hi <= p < |s| && ReadAt(s, p, skipBlock, e);
    assert lo <= p;
  }

  /** Each entry of the root object is the entry of a member at or after `i`. */
  lemma {:induction false} RootEntriesRead(s: Text, i: nat, skipBlock: (nat, char, char) -> nat, k: nat)
    requires i <= |s|
    requires Advances(s, skipBlock)
    requires RootEntries(s, i, skipBlock).Ok? && k < |RootEntries(s, i, skipBlock).value|
    ensures ReadWithin(s, i, skipBlock, RootEntries(s, i, skipBlock).value[k])
    decreases |s| - i
  {
    var es := RootEntries(s, i, skipBlock).value;
    assert i < |s|;
    RootEntriesStep(s, i, skipBlock);
    var m := MemberAt(s, i, skipBlock).value;
    if k == 0 {
      assert ReadAt(s, i, skipBlock, es[0]);
    } else {
      var rest := RootEntries(s, m.next, skipBlock).value;
      assert es[k] == rest[k - 1];
      RootEntriesRead(s, m.next, skipBlock, k - 1);
      ReadWithinWiden(s, i, m.next, skipBlock, es[k]);
    }
  }

  /** Each entry of parseObject's member loop is the entry of a member at or after `j`. */
  lemma {:induction false} ObjectLoopRead(s: Text, j: nat, skipBlock: (nat, char, char) -> nat, k: nat)
    requires j <= |s|
    requires Advances(s, skipBlock)
    requires ObjectLoop(s, j, skipBlock).Ok? && k < |ObjectLoop(s, j, skipBlock).value|
    ensures ReadWithin(s, j, skipBlock, ObjectLoop(s, j, skipBlock).value[k])
    decreases |s| - j
  {
    var es := ObjectLoop(s, j, skipBlock).value;
    ObjectLoopUnfold(s, j, skipBlock);
    var m := MemberAt(s, j, skipBlock).value;
    if k == 0 {
      assert ReadAt(s, j, skipBlock, es[0]);
    } else {
      var rest := ObjectLoop(s, m.next, skipBlock).value;
      assert es[k] == rest[k - 1];
      ObjectLoopRead(s, m.next, skipBlock, k - 1);
      ReadWithinWiden(s, j, m.next, skipBlock, es[k]);
    }
  }

  /** Each entry of the object at `i` is the entry of a member inside its braces. */
  lemma ObjectEntriesRead(s: Text, i: nat, skipBlock: (nat, char, char) -> nat, k: nat)
    requires i <= |s|
    requires Advances(s, skipBlock)
    requires ObjectEntries(s, i, skipBlock).Ok? && k < |ObjectEntries(s, i, skipBlock).value|
    ensures ReadWithin(s, i + 1, skipBlock, ObjectEntries(s, i, skipBlock).value[k])
  {
    var es := ObjectEntries(s, i, skipBlock).value;
    assert At(s, i) == '{';
    ObjectEntriesUnfold(s, i, skipBlock);
    var inside := AfterSeparators(s, i + 1).value;
    ObjectLoopRead(s, inside, skipBlock, k);
    ReadWithinWiden(s, i + 1, inside, skipBlock, es[k]);
  }

  /** Each entry `parse` reads is the entry of a member of the buffer. */
  lemma ParsedEntriesRead(s: Text, skipBlock: (nat, char, char) -> nat, k: nat)
    requires Advances(s, skipBlock)
    requires ParsedEntries(s, skipBlock).Ok? && k < |ParsedEntries(s, skipBlock).value|
    ensures ReadWithin(s, 0, skipBlock, ParsedEntries(s, skipBlock).value[k])
  {
    var j := AfterSeparators(s, 0).value;
    RootEntriesRead(s, j, skipBlock, k);
    ReadWithinWiden(s, 0, j, skipBlock, ParsedEntries(s, skipBlock).value[k]);
  }

  /** A key the entries assign has an entry that is the last to assign it. */
  lemma {:induction false} LastAssignment(es: seq<Entry>, key: string) returns (k: nat)
    requires key in KeysOf(es)
    ensures k < |es| && es[k].key == key && IsLast(es, k)
    decreases |es|
  {
    var front := es[..|es| - 1];
    KeysOfFront(es);
    if es[|es| - 1].key == key {
      k := |es| - 1;
    } else {
      k := LastAssignment(front, key);
      assert es[k] == front[k];
    }
  }

  /**
   * Collected into an empty map, entries that are all read from members give a
   * map in which every key is sent to the value cursor of a member with that key.
   */
  lemma CollectRead(s: Text, lo: nat, skipBlock: (nat, char, char) -> nat, es: seq<Entry>)
    requires Advances(s, skipBlock)
    requires forall k :: 0 <= k < |es| ==> ReadWithin(s, lo, skipBlock, es[k])
    ensures forall key :: key in Collect(map[], es) ==>
      ReadWithin(s, lo, skipBlock, Entry(key, Collect(map[], es)[key]))
  {
    var r := Collect(map[], es);
    forall key | key in r
      ensures ReadWithin(s, lo, skipBlock, Entry(key, r[key]))
    {
      var k := LastAssignment(es, key);
      assert Entry(key, r[key]) == es[k];
    }
  }

  /**
   * The map parseRootObject builds into an empty map sends every key to the
   * cursor of the value of a member at or after `i` with that key.
   */
  lemma RootMapRead(s: Text, i: nat, skipBlock: (nat, char, char) -> nat)
    requires i <= |s|
    requires Advances(s, skipBlock)
    requires RootEntries(s, i, skipBlock).Ok?
    ensures var m := Collect(map[], RootEntries(s, i, skipBlock).value);
      forall key :: key in m ==> ReadWithin(s, i, skipBlock, Entry(key, m[key]))
  {
    var es := RootEntries(s, i, skipBlock).value;
    forall k | 0 <= k < |es| ensures ReadWithin(s, i, skipBlock, es[k]) {
      RootEntriesRead(s, i, skipBlock, k);
    }
    CollectRead(s, i, skipBlock, es);
  }

  /**
   * The map `parse` builds into an empty map sends every key to the cursor of
   * the value of a member with that key: a map from key to the value in the
   * original buffer.
   */
  lemma ParsedMapRead(s: Text, skipBlock: (nat, char, char) -> nat)
    requires Advances(s, skipBlock)
    requires ParsedEntries(s, skipBlock).Ok?
    ensures var m := Collect(map[], ParsedEntries(s, skipBlock).value);
      forall key :: key in m ==> ReadWithin(s, 0, skipBlock, Entry(key, m[key]))
  {
    var es := ParsedEntries(s, skipBlock).value;
    forall k | 0 <= k < |es| ensures ReadWithin(s, 0, skipBlock, es[k]) {
      ParsedEntriesRead(s, skipBlock, k);
    }
    CollectRead(s, 0, skipBlock, es);
  }

  /**
   * The map parseObject builds into an empty map sends every key to the cursor
   * of the value of a member inside the braces with that key.
   */
  lemma ObjectMapRead(s: Text, i: nat, skipBlock: (nat, char, char) -> nat)
    requires i <= |s|
    requires Advances(s, skipBlock)
    requires ObjectEntries(s, i, skipBlock).Ok?
    ensures var m := Collect(map[], ObjectEntries(s, i, skipBlock).value);
      forall key :: key in m ==> ReadWithin(s, i + 1, skipBlock, Entry(key, m[key]))
  {
    var es := ObjectEntries(s, i, skipBlock).value;
    forall k | 0 <= k < |es| ensures ReadWithin(s, i + 1, skipBlock, es[k]) {
      ObjectEntriesRead(s, i, skipBlock, k);
    }
    CollectRead(s, i + 1, skipBlock, es);
  }
}
