/** `parse_internal` on a list of tokens, and the JSON grammar (RFC 7159, sections 2 to 5) that it accepts. */
module Grammar {
  import opened ByteStrings
  import opened Wrappers
  import opened Sequences
  import opened JsonValues

  /** A token with the value that `get_string` or `get_number` gives it. */
  datatype Lexeme =
    | OpenObject
    | CloseObject
    | OpenArray
    | CloseArray
    | Colon
    | Comma
    | NullWord
    | TrueWord
    | FalseWord
    | Text(text: Result<Bytes>)
    | Number(number: Json)
    | End
    | Wrong

  /** `last_token` */
  function Head(ts: seq<Lexeme>): Lexeme
  {
    if ts == [] then Wrong else ts[0]
  }

  datatype Parsed<+T> = Parsed(value: T, rest: seq<Lexeme>)

  // ---------- the parser ----------

  /** `parse_internal` without a callback: it starts at its first token and stops behind its last one. */
  function ParseValue(ts: seq<Lexeme>): (r: Result<Parsed<Json>>)
    ensures r.Ok? ==> |r.value.rest| < |ts|
    decreases |ts|, 0
  {
    match Head(ts)
    case OpenObject =>
      if Head(ts[1..]) == CloseObject then Ok(Parsed(Obj([]), ts[2..]))
      else if Head(ts[1..]) == Comma then Err(InvalidArgument)
      else
        var p :- ParseMembers(ts[1..], []);
        Ok(Parsed(Obj(p.value), p.rest))
    case OpenArray =>
      if Head(ts[1..]) == CloseArray then Ok(Parsed(Arr([]), ts[2..]))
      else if Head(ts[1..]) == Comma then Err(InvalidArgument)
      else
        var p :- ParseElems(ts[1..], []);
        Ok(Parsed(Arr(p.value), p.rest))
    case NullWord => Ok(Parsed(Null, ts[1..]))
    case TrueWord => Ok(Parsed(Bool(true), ts[1..]))
    case FalseWord => Ok(Parsed(Bool(false), ts[1..]))
    case Text(text) =>
      var s :- text;
      Ok(Parsed(Str(s), ts[1..]))
    case Number(j) => Ok(Parsed(j, ts[1..]))
    case _ => Err(InvalidArgument)
  }

  /** A key, a colon and a value: a later value replaces an earlier one with the same key. */
  function ParsePair(ts: seq<Lexeme>, done: Members<Json>): (r: Result<Parsed<Members<Json>>>)
    ensures r.Ok? ==> |r.value.rest| < |ts|
    decreases |ts|, 1
  {
    if !Head(ts).Text? then Err(InvalidArgument) else
    var key :- Head(ts).text;
    if Head(ts[1..]) != Colon then Err(InvalidArgument) else
    var p :- ParseValue(ts[2..]);
    Ok(Parsed(Insert(done, key, p.value), p.rest))
  }

  /** The loop over key-value pairs. */
  function ParseMembers(ts: seq<Lexeme>, done: Members<Json>): (r: Result<Parsed<Members<Json>>>)
    ensures r.Ok? ==> |r.value.rest| < |ts|
    decreases |ts|, 2
  {
    var p :- ParsePair(ts, done);
    if Head(p.rest) == Comma then ParseMembers(p.rest[1..], p.value)
    else if Head(p.rest) == CloseObject then Ok(Parsed(p.value, p.rest[1..]))
    else Err(InvalidArgument)
  }

  function ParseElems(ts: seq<Lexeme>, done: seq<Json>): (r: Result<Parsed<seq<Json>>>)
    ensures r.Ok? ==> |r.value.rest| < |ts|
    decreases |ts|, 1
  {
    var p :- ParseValue(ts);
    if Head(p.rest) == Comma then ParseElems(p.rest[1..], done + [p.value])
    else if Head(p.rest) == CloseArray then Ok(Parsed(done + [p.value], p.rest[1..]))
    else Err(InvalidArgument)
  }

  /** `parse`: one value and then the end of the input. */
  function Parse(ts: seq<Lexeme>): Result<Json>
  {
    var p :- ParseValue(ts);
    if Head(p.rest) == End then Ok(p.value) else Err(InvalidArgument)
  }

  // ---------- the grammar ----------

  datatype Tree =
    | NullTree
    | BoolTree(b: bool)
    | TextTree(s: Bytes)
    | NumberTree(j: Json)
    | ArrayTree(items: seq<Tree>)
    | ObjectTree(pairs: seq<Pair>)

  datatype Pair = Pair(key: Bytes, tree: Tree)

  /** The tokens of a tree, in front of others. */
  function Yield(t: Tree): (ts: seq<Lexeme>)
    ensures ts != []
    decreases t, 0
  {
    match t
    case NullTree => [NullWord]
    case BoolTree(b) => [if b then TrueWord else FalseWord]
    case TextTree(s) => [Text(Ok(s))]
    case NumberTree(j) => [Number(j)]
    case ArrayTree(items) => [OpenArray] + (if items == [] then [CloseArray] else YieldItems(items))
    case ObjectTree(pairs) => [OpenObject] + (if pairs == [] then [CloseObject] else YieldPairs(pairs))
  }

  /** Items separated by commas, and the closing bracket. */
  function YieldItems(items: seq<Tree>): (ts: seq<Lexeme>)
    requires items != []
    ensures ts != []
    decreases items, 1
  {
    Yield(items[0]) + (if |items| == 1 then [CloseArray] else [Comma] + YieldItems(items[1..]))
  }

  function YieldPairs(pairs: seq<Pair>): (ts: seq<Lexeme>)
    requires pairs != []
    ensures ts != []
    decreases pairs, 1
  {
    [Text(Ok(pairs[0].key)), Colon] +
    (Yield(pairs[0].tree) + (if |pairs| == 1 then [CloseObject] else [Comma] + YieldPairs(pairs[1..])))
  }

  /** The value of a tree. */
  function Meaning(t: Tree): Json
    decreases t, 0
  {
    match t
    case NullTree => Null
    case BoolTree(b) => Bool(b)
    case TextTree(s) => Str(s)
    case NumberTree(j) => j
    case ArrayTree(items) => Arr(Meanings(items))
    case ObjectTree(pairs) => Obj(MeaningOfPairs(pairs, []))
  }

  function Meanings(items: seq<Tree>): seq<Json>
    decreases items, 1
  {
    if items == [] then [] else [Meaning(items[0])] + Meanings(items[1..])
  }

  function MeaningOfPairs(pairs: seq<Pair>, done: Members<Json>): Members<Json>
    decreases pairs, 1
  {
    if pairs == [] then done else MeaningOfPairs(pairs[1..], Insert(done, pairs[0].key, Meaning(pairs[0].tree)))
  }

  /** The last pair with a key decides. */
  function LastValue(pairs: seq<Pair>, k: Bytes): Option<Json>
  {
    if pairs == [] then None
    else
      var later := LastValue(pairs[1..], k);
      if later.Some? then later else if pairs[0].key == k then Some(Meaning(pairs[0].tree)) else None
  }

  lemma {:induction false} LastPairWins(pairs: seq<Pair>, done: Members<Json>, k: Bytes)
    ensures Find(MeaningOfPairs(pairs, done), k) ==
      if LastValue(pairs, k).Some? then LastValue(pairs, k) else Find(done, k)
    decreases |pairs|
  {
    hide Find, Insert;
    if pairs != [] {
      var done' := Insert(done, pairs[0].key, Meaning(pairs[0].tree));
      FindAfterInsert(done, pairs[0].key, Meaning(pairs[0].tree), k);
      LastPairWins(pairs[1..], done', k);
    }
  }

  // ---------- every sentence is accepted ----------

  lemma HeadOf(x: Lexeme, ts: seq<Lexeme>)
    ensures Head([x] + ts) == x && ([x] + ts)[1..] == ts
  {}

  /** A sentence of the grammar is parsed to its meaning, and what follows it is left. */
  lemma {:induction false} Accepts(t: Tree, rest: seq<Lexeme>)
    ensures ParseValue(Yield(t) + rest) == Ok(Parsed(Meaning(t), rest))
    decreases t, 0
  {
    hide ParsePair, ParseMembers, ParseElems, YieldItems, YieldPairs, MeaningOfPairs, Meanings;
    match t
    case ArrayTree(items) => AcceptsArray(items, rest);
    case ObjectTree(pairs) => AcceptsObject(pairs, rest);
    case _ => HeadOf(Yield(t)[0], rest);
  }

  lemma {:induction false} AcceptsArray(items: seq<Tree>, rest: seq<Lexeme>)
    ensures ParseValue(Yield(ArrayTree(items)) + rest) == Ok(Parsed(Meaning(ArrayTree(items)), rest))
    decreases items, 2
  {
    hide ParseElems, YieldItems, Meaning;
    if items == [] {
      NoItems(rest);
    } else {
      Assoc([OpenArray], YieldItems(items), rest);
      HeadOf(OpenArray, YieldItems(items) + rest);
      FirstOfItems(items, rest);
      AcceptsItems(items, [], rest);
      LeftUnit(Meanings(items));
      MeaningOfArray(items);
    }
  }

  lemma NoItems(rest: seq<Lexeme>)
    ensures ParseValue(Yield(ArrayTree([])) + rest) == Ok(Parsed(Meaning(ArrayTree([])), rest))
    ensures ParseValue(Yield(ObjectTree([])) + rest) == Ok(Parsed(Meaning(ObjectTree([])), rest))
  {
    var a, o := Yield(ArrayTree([])) + rest, Yield(ObjectTree([])) + rest;
    assert a[1..][0] == CloseArray && a[2..] == rest;
    assert o[1..][0] == CloseObject && o[2..] == rest;
  }

  lemma MeaningOfArray(items: seq<Tree>)
    ensures Meaning(ArrayTree(items)) == Arr(Meanings(items))
  {}

  /** No value starts with a comma or a closing bracket. */
  lemma FirstOfValue(t: Tree, rest: seq<Lexeme>)
    ensures var x := Head(Yield(t) + rest); x != Comma && x != CloseArray && x != CloseObject
  {}

  lemma FirstOfItems(items: seq<Tree>, rest: seq<Lexeme>)
    requires items != []
    ensures var x := Head(YieldItems(items) + rest); x != Comma && x != CloseArray
  {
    hide Yield;
    var tail := if |items| == 1 then [CloseArray] else [Comma] + YieldItems(items[1..]);
    Assoc(Yield(items[0]), tail, rest);
    FirstOfValue(items[0], tail + rest);
  }

  lemma {:induction false} AcceptsItems(items: seq<Tree>, done: seq<Json>, rest: seq<Lexeme>)
    requires items != []
    ensures ParseElems(YieldItems(items) + rest, done) == Ok(Parsed(done + Meanings(items), rest))
    decreases items, 1
  {
    hide Yield, Meaning, ParseValue;
    var tail := if |items| == 1 then [CloseArray] else [Comma] + YieldItems(items[1..]);
    Assoc(Yield(items[0]), tail, rest);
    Accepts(items[0], tail + rest);
    if |items| == 1 {
      HeadOf(CloseArray, rest);
      RightUnit([Meaning(items[0])]);
      assert items[1..] == [];
    } else {
      Assoc([Comma], YieldItems(items[1..]), rest);
      HeadOf(Comma, YieldItems(items[1..]) + rest);
      AcceptsItems(items[1..], done + [Meaning(items[0])], rest);
      Assoc(done, [Meaning(items[0])], Meanings(items[1..]));
    }
  }

  lemma {:induction false} AcceptsObject(pairs: seq<Pair>, rest: seq<Lexeme>)
    ensures ParseValue(Yield(ObjectTree(pairs)) + rest) == Ok(Parsed(Meaning(ObjectTree(pairs)), rest))
    decreases pairs, 2
  {
    hide ParseMembers, YieldPairs, MeaningOfPairs;
    if pairs == [] {
      NoItems(rest);
    } else {
      Assoc([OpenObject], YieldPairs(pairs), rest);
      HeadOf(OpenObject, YieldPairs(pairs) + rest);
      FirstOfPairs(pairs, rest);
      AcceptsPairs(pairs, [], rest);
    }
  }

  lemma FirstOfPairs(pairs: seq<Pair>, rest: seq<Lexeme>)
    requires pairs != []
    ensures Head(YieldPairs(pairs) + rest) == Text(Ok(pairs[0].key))
  {
    hide Yield;
  }

  lemma HeadsOf(x: Lexeme, y: Lexeme, ts: seq<Lexeme>)
    ensures Head([x, y] + ts) == x && Head(([x, y] + ts)[1..]) == y && ([x, y] + ts)[2..] == ts
  {}

  lemma {:induction false} AcceptsPairs(pairs: seq<Pair>, done: Members<Json>, rest: seq<Lexeme>)
    requires pairs != []
    ensures ParseMembers(YieldPairs(pairs) + rest, done) == Ok(Parsed(MeaningOfPairs(pairs, done), rest))
    decreases pairs, 1
  {
    hide Yield, Meaning, ParseValue, Insert;
    var key, x := pairs[0].key, pairs[0].tree;
    var tail := if |pairs| == 1 then [CloseObject] else [Comma] + YieldPairs(pairs[1..]);
    Assoc([Text(Ok(key)), Colon], Yield(x) + tail, rest);
    Assoc(Yield(x), tail, rest);
    HeadsOf(Text(Ok(key)), Colon, Yield(x) + (tail + rest));
    Accepts(x, tail + rest);
    if |pairs| == 1 {
      HeadOf(CloseObject, rest);
      assert pairs[1..] == [];
    } else {
      Assoc([Comma], YieldPairs(pairs[1..]), rest);
      HeadOf(Comma, YieldPairs(pairs[1..]) + rest);
      AcceptsPairs(pairs[1..], Insert(done, key, Meaning(x)), rest);
    }
  }

  // ---------- nothing else is accepted ----------

  lemma HeadRest(ts: seq<Lexeme>)
    requires Head(ts) != Wrong
    ensures ts != [] && ts == [Head(ts)] + ts[1..]
  {
    HeadTail(ts);
  }

  /** Whatever is parsed is a sentence, followed by the rest. */
  lemma {:induction false} Derives(ts: seq<Lexeme>) returns (t: Tree)
    requires ParseValue(ts).Ok?
    ensures ts == Yield(t) + ParseValue(ts).value.rest && Meaning(t) == ParseValue(ts).value.value
    decreases |ts|, 0
  {
    hide ParseMembers, ParseElems, YieldItems, YieldPairs;
    HeadRest(ts);
    var p := ParseValue(ts).value;
    match Head(ts)
    case OpenObject =>
      if Head(ts[1..]) == CloseObject {
        HeadRest(ts[1..]);
        t := ObjectTree([]);
      } else {
        var pairs := DerivesPairs(ts[1..], []);
        t := ObjectTree(pairs);
        Assoc([OpenObject], YieldPairs(pairs), p.rest);
      }
    case OpenArray =>
      if Head(ts[1..]) == CloseArray {
        HeadRest(ts[1..]);
        t := ArrayTree([]);
      } else {
        var items := DerivesItems(ts[1..], []);
        t := ArrayTree(items);
        LeftUnit(Meanings(items));
        Assoc([OpenArray], YieldItems(items), p.rest);
      }
    case NullWord => t := NullTree;
    case TrueWord => t := BoolTree(true);
    case FalseWord => t := BoolTree(false);
    case Text(text) => t := TextTree(text.value);
    case Number(j) => t := NumberTree(j);
    case _ =>
  }

  lemma {:induction false} DerivesItems(ts: seq<Lexeme>, done: seq<Json>) returns (items: seq<Tree>)
    requires ParseElems(ts, done).Ok?
    ensures items != [] && ts == YieldItems(items) + ParseElems(ts, done).value.rest
    ensures done + Meanings(items) == ParseElems(ts, done).value.value
    decreases |ts|, 1
  {
    hide ParseValue, Yield, Meaning;
    var x := Derives(ts);
    var p := ParseValue(ts).value;
    var rest := ParseElems(ts, done).value.rest;
    HeadRest(p.rest);
    if Head(p.rest) == Comma {
      var more := DerivesItems(p.rest[1..], done + [p.value]);
      items := [x] + more;
      ConsTail(x, more);
      Assoc([Comma], YieldItems(more), rest);
      Assoc(Yield(x), [Comma] + YieldItems(more), rest);
      Assoc(done, [p.value], Meanings(more));
    } else {
      items := [x];
      OneItem(x);
      Assoc(Yield(x), [CloseArray], rest);
    }
  }

  lemma OneItem(x: Tree)
    ensures YieldItems([x]) == Yield(x) + [CloseArray] && Meanings([x]) == [Meaning(x)]
  {
    hide Yield, Meaning;
    assert [x][1..] == [];
  }

  lemma {:induction false} DerivesPairs(ts: seq<Lexeme>, done: Members<Json>) returns (pairs: seq<Pair>)
    requires ParseMembers(ts, done).Ok?
    ensures pairs != [] && ts == YieldPairs(pairs) + ParseMembers(ts, done).value.rest
    ensures MeaningOfPairs(pairs, done) == ParseMembers(ts, done).value.value
    decreases |ts|, 1
  {
    hide ParseValue, Yield, Meaning, Insert;
    HeadRest(ts);
    HeadRest(ts[1..]);
    var key := Head(ts).text.value;
    var x := Derives(ts[2..]);
    var p := ParseValue(ts[2..]).value;
    var rest := ParseMembers(ts, done).value.rest;
    var first := Pair(key, x);
    assert ts == [Text(Ok(key)), Colon] + ts[2..];
    HeadRest(p.rest);
    if Head(p.rest) == Comma {
      var more := DerivesPairs(p.rest[1..], Insert(done, key, p.value));
      pairs := [first] + more;
      ConsTail(first, more);
      Assoc([Comma], YieldPairs(more), rest);
      Assoc(Yield(x), [Comma] + YieldPairs(more), rest);
      Assoc([Text(Ok(key)), Colon], Yield(x) + ([Comma] + YieldPairs(more)), rest);
    } else {
      pairs := [first];
      OnePair(first, done);
      Assoc(Yield(x), [CloseObject], rest);
      Assoc([Text(Ok(key)), Colon], Yield(x) + [CloseObject], rest);
    }
  }

  lemma OnePair(x: Pair, done: Members<Json>)
    ensures YieldPairs([x]) == [Text(Ok(x.key)), Colon] + (Yield(x.tree) + [CloseObject])
    ensures MeaningOfPairs([x], done) == Insert(done, x.key, Meaning(x.tree))
  {
    hide Yield, Meaning, Insert;
    assert [x][1..] == [];
  }

  /** The token list is a sentence of the grammar and the end of the input, and `j` is its value. */
  ghost predicate IsSentence(ts: seq<Lexeme>, j: Json)
  {
    exists t, rest :: ts == Yield(t) + ([End] + rest) && Meaning(t) == j
  }

  /** `parse` accepts exactly the sentences of the grammar, with exactly their value. */
  lemma {:induction false} ParseIsGrammar(ts: seq<Lexeme>, j: Json)
    ensures Parse(ts) == Ok(j) <==> IsSentence(ts, j)
  {
    hide Yield, Meaning, ParseValue;
    if IsSentence(ts, j) {
      var t, rest :| ts == Yield(t) + ([End] + rest) && Meaning(t) == j;
      Accepts(t, [End] + rest);
      HeadOf(End, rest);
    }
    if Parse(ts) == Ok(j) {
      var t := Derives(ts);
      var rest := ParseValue(ts).value.rest;
      HeadRest(rest);
      assert ts == Yield(t) + ([End] + rest[1..]);
    }
  }
}
