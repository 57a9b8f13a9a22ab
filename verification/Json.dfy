/**
 JSON data, its canonical encoding and its decoding. An object is a map, so key order is no part
 of a value; the encoder takes the order in which to write the keys, and canonical bytes use
 the sorted one.
 */
module Json {
  import opened Contracts
  import opened Text

  datatype Value =
    | Str(text: string)
    | Int(number: int)
    | Bool(flag: bool)
    | List(items: seq<Value>)
    | Obj(fields: map<string, Value>)

  type Fields = map<string, Value>

  function Get(fields: Fields, key: string): Option<Value> {
    if key in fields then Some(fields[key]) else None
  }

  // ---------------------------------------------------------------- key orders

  /** The order in which to write the keys of the object at a position of a value. */
  type KeyOrder = (seq<nat>, set<string>) -> seq<string>

  /** `keys` holds every element of `s` and nothing else, each once. */
  ghost predicate Lists(keys: seq<string>, s: set<string>) {
    Distinct(keys) && forall k :: k in keys <==> k in s
  }

  ghost predicate Enumerates(ord: KeyOrder) {
    forall path, s :: Lists(ord(path, s), s)
  }

  /** The orders below one place in a list or an object; places are counted from the end. */
  function At(ord: KeyOrder, place: nat): (below: KeyOrder)
    ensures Enumerates(ord) ==> Enumerates(below)
  {
    (path, s) => ord([place] + path, s)
  }

  predicate Ascending(keys: seq<string>) {
    forall i, j | 0 <= i < j < |keys| :: Before(keys[i], keys[j])
  }

  predicate IsLeast(k: string, s: set<string>) {
    k in s && forall j :: j in s && j != k ==> Before(k, j)
  }

  lemma {:induction false} LeastExists(s: set<string>)
    requires s != {}
    ensures exists k :: IsLeast(k, s)
  {
    var x :| x in s;
    if s == {x} {
      assert IsLeast(x, s);
    } else {
      LeastExists(s - {x});
      var y :| IsLeast(y, s - {x});
      BeforeTotal(x, y);
      if Before(x, y) {
        forall j | j in s && j != x && j != y ensures Before(x, j) {
          BeforeTransitive(x, y, j);
        }
        assert IsLeast(x, s);
      } else {
        assert IsLeast(y, s);
      }
    }
  }

  lemma LeastUnique(s: set<string>)
    ensures forall k, j | IsLeast(k, s) && IsLeast(j, s) :: k == j
  {
    forall k, j | IsLeast(k, s) && IsLeast(j, s) ensures k == j {
      BeforeTotal(k, j);
    }
  }

  function Least(s: set<string>): (k: string)
    requires s != {}
    ensures IsLeast(k, s)
  {
    LeastExists(s);
    LeastUnique(s);
    var k :| k in s && IsLeast(k, s);
    k
  }

  /** The keys in code point order. */
  function SortedKeys(s: set<string>): (keys: seq<string>)
    ensures Lists(keys, s)
    ensures Ascending(keys)
  {
    if s == {} then []
    else
      var k := Least(s);
      [k] + SortedKeys(s - {k})
  }

  // ---------------------------------------------------------------- encoding

  function Render(v: Value, ord: KeyOrder): string
    requires Enumerates(ord)
    decreases v, 1, 0
  {
    match v
    case Str(t) => Quote(t)
    case Int(n) => Decimal(n)
    case Bool(b) => if b then "true" else "false"
    case List(items) => "[" + RenderItems(items, ord) + "]"
    case Obj(fields) => "{" + RenderMembers(ord([], fields.Keys), v, ord) + "}"
  }

  function RenderItems(items: seq<Value>, ord: KeyOrder): string
    requires Enumerates(ord)
    decreases items, 0, |items|
  {
    if items == [] then ""
    else if |items| == 1 then Render(items[0], At(ord, 1))
    else Render(items[0], At(ord, |items|)) + "," + RenderItems(items[1..], ord)
  }

  function RenderMember(key: string, v: Value, ord: KeyOrder): string
    requires Enumerates(ord) && v.Obj? && key in v.fields
    decreases v, 0, 0
  {
    Quote(key) + ":" + Render(v.fields[key], ord)
  }

  function RenderMembers(keys: seq<string>, v: Value, ord: KeyOrder): string
    requires Enumerates(ord) && v.Obj? && forall k <- keys :: k in v.fields
    decreases v, 0, 1 + |keys|
  {
    if keys == [] then ""
    else if |keys| == 1 then RenderMember(keys[0], v, At(ord, 1))
    else RenderMember(keys[0], v, At(ord, |keys|)) + "," + RenderMembers(keys[1..], v, ord)
  }

  // ---------------------------------------------------------------- decoding

  function ParseLiteral(s: string, word: string, v: Value): (r: Option<(Value, string)>)
    requires word != []
    ensures r.Some? ==> |r.value.1| < |s|
  {
    if |s| >= |word| && s[..|word|] == word then Some((v, s[|word|..])) else None
  }

  /** A value that holds no other value. */
  function ParseScalar(s: string): (r: Option<(Value, string)>)
    ensures r.Some? ==> |r.value.1| < |s|
  {
    if s == [] then None
    else if s[0] == '"' then
      var (t, rest) :- ParseString(s[1..]);
      Some((Str(t), rest))
    else if s[0] == 't' then ParseLiteral(s, "true", Bool(true))
    else if s[0] == 'f' then ParseLiteral(s, "false", Bool(false))
    else
      var (n, rest) :- ParseInt(s);
      Some((Int(n), rest))
  }

  function ParseValue(s: string): (r: Option<(Value, string)>)
    ensures r.Some? ==> |r.value.1| < |s|
    decreases |s|, 0
  {
    if s != [] && s[0] == '{' then
      if |s| > 1 && s[1] == '}' then Some((Obj(map[]), s[2..])) else ParseMembers(s[1..], map[])
    else if s != [] && s[0] == '[' then
      if |s| > 1 && s[1] == ']' then Some((List([]), s[2..]))
      else
        var (items, rest) :- ParseItems(s[1..]);
        Some((List(items), rest))
    else ParseScalar(s)
  }

  function ParseItems(s: string): (r: Option<(seq<Value>, string)>)
    ensures r.Some? ==> |r.value.1| < |s|
    decreases |s|, 1
  {
    var (v, rest) :- ParseValue(s);
    if rest == [] then None
    else if rest[0] == ',' then
      var (more, remainder) :- ParseItems(rest[1..]);
      Some(([v] + more, remainder))
    else if rest[0] == ']' then Some(([v], rest[1..]))
    else None
  }

  /** Members after the brace or a comma; a repeated key keeps its last value. */
  function ParseMembers(s: string, acc: Fields): (r: Option<(Value, string)>)
    ensures r.Some? ==> |r.value.1| < |s|
    decreases |s|, 1
  {
    if s == [] || s[0] != '"' then None else
    var (key, colon) :- ParseString(s[1..]);
    if colon == [] || colon[0] != ':' then None else
    var (v, rest) :- ParseValue(colon[1..]);
    if rest == [] then None
    else if rest[0] == ',' then ParseMembers(rest[1..], acc[key := v])
    else if rest[0] == '}' then Some((Obj(acc[key := v]), rest[1..]))
    else None
  }

  /** A whole document: one value and nothing after it. */
  function Parse(s: string): Option<Value> {
    var (v, rest) :- ParseValue(s);
    if rest == [] then Some(v) else None
  }

  // ---------------------------------------------------------------- round trip

  function Pick(fields: Fields, keys: seq<string>): Fields
    requires forall k <- keys :: k in fields
  {
    map k | k in keys :: fields[k]
  }

  predicate Stops(rest: string) {
    rest == [] || !IsDigit(rest[0])
  }

  lemma {:induction false} ParseRendered(v: Value, ord: KeyOrder, rest: string)
    requires Enumerates(ord) && Stops(rest)
    ensures ParseValue(Render(v, ord) + rest) == Some((v, rest))
    decreases v, 1, 0
  {
    match v
    case Str(t) => ReadString(t, rest);
    case Int(n) => ReadInt(n, rest);
    case Bool(b) => ReadBool(b, rest);
    case List(items) =>
      if items != [] {
        ParseRenderedItems(items, ord, rest);
        RenderItemsStart(items, ord);
      }
      ReadList(items, ord, rest);
    case Obj(fields) => ParseRenderedObject(v, ord, rest);
  }

  /** An object ends with its brace, whatever follows. */
  lemma {:induction false} ParseRenderedObject(v: Value, ord: KeyOrder, rest: string)
    requires Enumerates(ord) && v.Obj?
    ensures ParseValue(Render(v, ord) + rest) == Some((v, rest))
    decreases v, 0, |v.fields| + 2
  {
    var keys := ord([], v.fields.Keys);
    assert Lists(keys, v.fields.Keys);
    if keys != [] {
      ListingSize(keys, v.fields.Keys);
      ParseRenderedMembers(keys, v, ord, rest, map[]);
      assert map[] + Pick(v.fields, keys) == v.fields;
    }
    ReadObject(v, ord, rest);
  }

  lemma {:induction false} ListingSize(keys: seq<string>, s: set<string>)
    requires Lists(keys, s)
    ensures |keys| == |s|
  {
    if keys != [] {
      var last := |keys| - 1;
      assert forall k :: k in keys[..last] <==> k in s - {keys[last]};
      ListingSize(keys[..last], s - {keys[last]});
    }
  }

  lemma ReadString(t: string, rest: string)
    ensures ParseScalar(Quote(t) + rest) == Some((Str(t), rest))
  {
    assert (Quote(t) + rest)[1..] == Escape(t) + "\"" + rest;
    ParseQuoted(t, rest);
  }

  lemma ReadInt(n: int, rest: string)
    requires Stops(rest)
    ensures Decimal(n) != [] && (Decimal(n)[0] == '-' || IsDigit(Decimal(n)[0]))
    ensures ParseScalar(Decimal(n) + rest) == Some((Int(n), rest))
  {
    ParseIntDecimal(n, rest);
    DigitsWellFormed(if n < 0 then -n else n);
  }

  lemma ReadBool(b: bool, rest: string)
    ensures ParseScalar((if b then "true" else "false") + rest) == Some((Bool(b), rest))
  {
    var word := if b then "true" else "false";
    assert (word + rest)[..|word|] == word && (word + rest)[|word|..] == rest;
  }

  lemma ReadList(items: seq<Value>, ord: KeyOrder, rest: string)
    requires Enumerates(ord)
    requires items != [] ==> RenderItems(items, ord) != [] && RenderItems(items, ord)[0] != ']'
    requires items != [] ==>
               ParseItems(RenderItems(items, ord) + "]" + rest) == Some((items, rest))
    ensures ParseValue("[" + RenderItems(items, ord) + "]" + rest) == Some((List(items), rest))
  {
    var inner := RenderItems(items, ord) + "]" + rest;
    assert "[" + RenderItems(items, ord) + "]" + rest == "[" + inner;
    if items == [] {
      assert inner == "]" + rest;
      EmptyList(rest);
    } else {
      ListStart(inner);
    }
  }

  lemma EmptyList(rest: string)
    ensures ParseValue("[" + ("]" + rest)) == Some((List([]), rest))
  {
    assert ("[" + ("]" + rest))[2..] == rest;
  }

  lemma ListStart(inner: string)
    requires inner != [] && inner[0] != ']'
    requires ParseItems(inner).Some?
    ensures ParseValue("[" + inner)
         == Some((List(ParseItems(inner).value.0), ParseItems(inner).value.1))
  {
    assert ("[" + inner)[1..] == inner;
  }

  lemma ReadObject(v: Value, ord: KeyOrder, rest: string)
    requires Enumerates(ord) && v.Obj? && Lists(ord([], v.fields.Keys), v.fields.Keys)
    requires v.fields != map[] ==>
               ParseMembers(RenderMembers(ord([], v.fields.Keys), v, ord) + "}" + rest, map[]) == Some((v, rest))
    ensures ParseValue("{" + RenderMembers(ord([], v.fields.Keys), v, ord) + "}" + rest) == Some((v, rest))
  {
    var keys := ord([], v.fields.Keys);
    var inner := RenderMembers(keys, v, ord) + "}" + rest;
    assert "{" + RenderMembers(keys, v, ord) + "}" + rest == "{" + inner;
    if keys == [] {
      assert v.fields == map[];
      assert inner == "}" + rest;
      EmptyObject(rest);
    } else {
      assert keys[0] in v.fields;
      MembersSplit(keys, v, ord, rest);
      assert inner[0] == '"';
      ObjectStart(inner);
    }
  }

  lemma EmptyObject(rest: string)
    ensures ParseValue("{" + ("}" + rest)) == Some((Obj(map[]), rest))
  {
    assert ("{" + ("}" + rest))[2..] == rest;
  }

  lemma ObjectStart(inner: string)
    requires inner != [] && inner[0] == '"'
    ensures ParseValue("{" + inner) == ParseMembers(inner, map[])
  {
    assert ("{" + inner)[1..] == inner;
  }

  /** One step of an object whose first member is `key` and a value that reads up to `rest`. */
  lemma MembersStep(key: string, body: string, acc: Fields, v: Value, rest: string)
    requires ParseValue(body) == Some((v, rest)) && rest != []
    ensures rest[0] == ',' ==> ParseMembers(Quote(key) + ":" + body, acc) == ParseMembers(rest[1..], acc[key := v])
    ensures rest[0] == '}' ==> ParseMembers(Quote(key) + ":" + body, acc) == Some((Obj(acc[key := v]), rest[1..]))
  {
    var colon := ":" + body;
    assert (Quote(key) + ":" + body)[1..] == Escape(key) + "\"" + colon;
    ParseQuoted(key, colon);
    assert colon[1..] == body;
  }

  /** No rendered value starts like the end of a list. */
  lemma RenderItemsStart(items: seq<Value>, ord: KeyOrder)
    requires Enumerates(ord) && items != []
    ensures RenderItems(items, ord) != [] && RenderItems(items, ord)[0] != ']'
  {
    var v := items[0];
    if v.Int? {
      DigitsWellFormed(if v.number < 0 then -v.number else v.number);
    }
    var first := Render(v, At(ord, |items|));
    assert first != [] && first[0] != ']';
  }

  /** What follows the first value of a rendered list, and the first member of a rendered object. */
  function ItemsTail(items: seq<Value>, ord: KeyOrder, rest: string): string
    requires Enumerates(ord) && items != []
  {
    if |items| == 1 then "]" + rest else "," + (RenderItems(items[1..], ord) + "]" + rest)
  }

  function MembersTail(keys: seq<string>, v: Value, ord: KeyOrder, rest: string): string
    requires Enumerates(ord) && v.Obj? && (forall k <- keys :: k in v.fields) && keys != []
  {
    if |keys| == 1 then "}" + rest else "," + (RenderMembers(keys[1..], v, ord) + "}" + rest)
  }

  lemma ItemsSplit(items: seq<Value>, ord: KeyOrder, rest: string)
    requires Enumerates(ord) && items != []
    ensures RenderItems(items, ord) + "]" + rest == Render(items[0], At(ord, |items|)) + ItemsTail(items, ord, rest)
  {
    var first := Render(items[0], At(ord, |items|));
    if |items| == 1 {
      JoinLastItem(first, rest);
    } else {
      JoinMoreItems(first, RenderItems(items[1..], ord), rest);
    }
  }

  lemma JoinLastItem(first: string, rest: string)
    ensures first + "]" + rest == first + ("]" + rest)
  {
  }

  lemma JoinMoreItems(first: string, more: string, rest: string)
    ensures (first + "," + more) + "]" + rest == first + ("," + (more + "]" + rest))
  {
  }

  lemma MembersSplit(keys: seq<string>, v: Value, ord: KeyOrder, rest: string)
    requires Enumerates(ord) && v.Obj? && (forall k <- keys :: k in v.fields) && keys != []
    ensures RenderMembers(keys, v, ord) + "}" + rest
         == Quote(keys[0]) + ":" + (Render(v.fields[keys[0]], At(ord, |keys|)) + MembersTail(keys, v, ord, rest))
  {
    var quoted, value := Quote(keys[0]), Render(v.fields[keys[0]], At(ord, |keys|));
    if |keys| == 1 {
      JoinLast(quoted, value, rest);
    } else {
      JoinMore(quoted, value, RenderMembers(keys[1..], v, ord), rest);
    }
  }

  lemma JoinLast(quoted: string, value: string, rest: string)
    ensures (quoted + ":" + value) + "}" + rest == quoted + ":" + (value + ("}" + rest))
  {
  }

  lemma JoinMore(quoted: string, value: string, more: string, rest: string)
    ensures (quoted + ":" + value + "," + more) + "}" + rest
         == quoted + ":" + (value + ("," + (more + "}" + rest)))
  {
  }

  lemma {:induction false} ParseRenderedItems(items: seq<Value>, ord: KeyOrder, rest: string)
    requires Enumerates(ord) && items != []
    ensures ParseItems(RenderItems(items, ord) + "]" + rest) == Some((items, rest))
    decreases items, 0, |items|
  {
    var tail, first := ItemsTail(items, ord, rest), Render(items[0], At(ord, |items|));
    ItemsSplit(items, ord, rest);
    ParseRendered(items[0], At(ord, |items|), tail);
    ItemsStep(first + tail, items[0], tail);
    if |items| == 1 {
      assert [items[0]] == items && tail[1..] == rest;
    } else {
      ParseRenderedItems(items[1..], ord, rest);
      TailAfterComma(RenderItems(items[1..], ord) + "]" + rest);
      assert [items[0]] + items[1..] == items;
    }
  }

  lemma TailAfterComma(more: string)
    ensures ("," + more)[0] == ',' && ("," + more)[1..] == more
  {
  }

  /** One step of a list whose first item reads up to `tail`. */
  lemma ItemsStep(text: string, v: Value, tail: string)
    requires ParseValue(text) == Some((v, tail)) && tail != []
    ensures tail[0] == ']' ==> ParseItems(text) == Some(([v], tail[1..]))
    ensures tail[0] == ',' && ParseItems(tail[1..]).Some? ==>
              ParseItems(text) == Some(([v] + ParseItems(tail[1..]).value.0, ParseItems(tail[1..]).value.1))
  {
  }

  lemma {:induction false} ParseRenderedMembers(keys: seq<string>, v: Value, ord: KeyOrder, rest: string, acc: Fields)
    requires Enumerates(ord) && v.Obj? && (forall k <- keys :: k in v.fields) && keys != []
    ensures ParseMembers(RenderMembers(keys, v, ord) + "}" + rest, acc)
         == Some((Obj(acc + Pick(v.fields, keys)), rest))
    decreases v, 0, 1 + |keys|
  {
    var key, tail := keys[0], MembersTail(keys, v, ord, rest);
    var value := v.fields[key];
    MembersSplit(keys, v, ord, rest);
    ParseRendered(value, At(ord, |keys|), tail);
    MembersStep(key, Render(value, At(ord, |keys|)) + tail, acc, value, tail);
    PickStep(v.fields, keys, acc);
    if |keys| == 1 {
      assert acc[key := value] == acc + Pick(v.fields, keys) && tail[1..] == rest;
    } else {
      assert tail[1..] == RenderMembers(keys[1..], v, ord) + "}" + rest;
      ParseRenderedMembers(keys[1..], v, ord, rest, acc[key := value]);
    }
  }

  lemma PickStep(fields: Fields, keys: seq<string>, acc: Fields)
    requires keys != [] && forall k <- keys :: k in fields
    ensures acc[keys[0] := fields[keys[0]]] + Pick(fields, keys[1..]) == acc + Pick(fields, keys)
  {
    assert keys == [keys[0]] + keys[1..];
  }

  /** Any value, written with the keys of each of its objects in any order, reads back as itself. */
  lemma ParseRender(v: Value, ord: KeyOrder)
    requires Enumerates(ord)
    ensures Parse(Render(v, ord)) == Some(v)
  {
    ParseRendered(v, ord, "");
    assert Render(v, ord) + "" == Render(v, ord);
  }

  // ---------------------------------------------------------------- bytes

  function ToBytes(s: string): (b: Bytes)
    requires IsAscii(s)
    ensures |b| == |s| && forall i | 0 <= i < |s| :: b[i] as int == s[i] as int
  {
    seq(|s|, i requires 0 <= i < |s| => s[i] as int as Byte)
  }

  /** Decoding of text bytes; only the ASCII range is modelled. */
  function FromBytes(b: Bytes): Option<string> {
    if forall i | 0 <= i < |b| :: b[i] < 128
    then Some(seq(|b|, i requires 0 <= i < |b| => b[i] as int as char))
    else None
  }

  lemma FromToBytes(s: string)
    requires IsAscii(s)
    ensures FromBytes(ToBytes(s)) == Some(s)
  {
    var b := ToBytes(s);
    assert forall i | 0 <= i < |b| :: b[i] < 128;
    var back := FromBytes(b).value;
    forall i | 0 <= i < |s| ensures back[i] == s[i] {
      assert b[i] as int == s[i] as int;
    }
    assert back == s;
  }

  lemma {:induction false} RenderAscii(v: Value, ord: KeyOrder)
    requires Enumerates(ord)
    ensures IsAscii(Render(v, ord))
    decreases v, 1, 0
  {
    match v
    case Str(t) => EscapeAscii(t);
    case Int(n) => DecimalAscii(n);
    case Bool(b) =>
    case List(items) => RenderItemsAscii(items, ord);
    case Obj(fields) => RenderMembersAscii(ord([], fields.Keys), v, ord);
  }

  lemma {:induction false} RenderItemsAscii(items: seq<Value>, ord: KeyOrder)
    requires Enumerates(ord)
    ensures IsAscii(RenderItems(items, ord))
    decreases items, 0, |items|
  {
    if items != [] {
      RenderAscii(items[0], At(ord, |items|));
      RenderItemsAscii(items[1..], ord);
    }
  }

  lemma {:induction false} RenderMembersAscii(keys: seq<string>, v: Value, ord: KeyOrder)
    requires Enumerates(ord) && v.Obj? && forall k <- keys :: k in v.fields
    ensures IsAscii(RenderMembers(keys, v, ord))
    decreases v, 0, 1 + |keys|
  {
    if keys != [] {
      EscapeAscii(keys[0]);
      RenderAscii(v.fields[keys[0]], At(ord, |keys|));
      assert IsAscii(RenderMember(keys[0], v, At(ord, |keys|)));
      RenderMembersAscii(keys[1..], v, ord);
    }
  }

  /** Sorted everywhere. */
  function Sorted(): KeyOrder {
    (path, s) => SortedKeys(s)
  }

  lemma SortedEnumerates()
    ensures Enumerates(Sorted())
  {
    forall path: seq<nat>, s: set<string> ensures Lists(Sorted()(path, s), s) {
    }
  }

  ghost predicate SameOrder(a: KeyOrder, b: KeyOrder) {
    forall path, s :: a(path, s) == b(path, s)
  }

  /** What is written depends on the orders only through the sequences they give. */
  lemma {:induction false} RenderSame(v: Value, a: KeyOrder, b: KeyOrder)
    requires Enumerates(a) && Enumerates(b) && SameOrder(a, b)
    ensures Render(v, a) == Render(v, b)
    decreases v, 1, 0
  {
    match v
    case List(items) => RenderItemsSame(items, a, b);
    case Obj(fields) => RenderMembersSame(a([], fields.Keys), v, a, b);
    case _ =>
  }

  lemma {:induction false} RenderItemsSame(items: seq<Value>, a: KeyOrder, b: KeyOrder)
    requires Enumerates(a) && Enumerates(b) && SameOrder(a, b)
    ensures RenderItems(items, a) == RenderItems(items, b)
    decreases items, 0, |items|
  {
    if items != [] {
      RenderSame(items[0], At(a, |items|), At(b, |items|));
      RenderItemsSame(items[1..], a, b);
    }
  }

  lemma {:induction false} RenderMembersSame(keys: seq<string>, v: Value, a: KeyOrder, b: KeyOrder)
    requires Enumerates(a) && Enumerates(b) && SameOrder(a, b) && v.Obj? && forall k <- keys :: k in v.fields
    ensures RenderMembers(keys, v, a) == RenderMembers(keys, v, b)
    decreases v, 0, 1 + |keys|
  {
    if keys != [] {
      RenderSame(v.fields[keys[0]], At(a, |keys|), At(b, |keys|));
      RenderMembersSame(keys[1..], v, a, b);
    }
  }

  /** Below any place, sorted everywhere is still sorted everywhere. */
  lemma SortedBelow(v: Value, place: nat)
    ensures Enumerates(Sorted()) && Render(v, At(Sorted(), place)) == Render(v, Sorted())
  {
    SortedEnumerates();
    RenderSame(v, At(Sorted(), place), Sorted());
  }

  // ---------------------------------------------------------------- what canonical text is

  /** Parts with a comma between each two. */
  function Commas(parts: seq<string>): string {
    if parts == [] then ""
    else if |parts| == 1 then parts[0]
    else parts[0] + "," + Commas(parts[1..])
  }

  function Pairs(keys: seq<string>, texts: seq<string>): seq<string>
    requires |keys| == |texts|
  {
    if keys == [] then [] else [Quote(keys[0]) + ":" + texts[0]] + Pairs(keys[1..], texts[1..])
  }

  /** Each key before the next ones, by code points. */
  ghost predicate Increasing(keys: seq<string>) {
    forall i, j | 0 <= i < j < |keys| :: CodePointLess(keys[i], keys[j])
  }

  /** The one text of a value: no spaces, and every object with its keys in increasing code point order. */
  ghost predicate Writes(text: string, v: Value)
    decreases v, 1
  {
    match v
    case Str(t) => text == Quote(t)
    case Int(n) => text == Decimal(n)
    case Bool(b) => text == if b then "true" else "false"
    case List(items) =>
      exists texts: seq<string> ::
        && |texts| == |items| && text == "[" + Commas(texts) + "]"
        && forall i | 0 <= i < |items| :: Writes(texts[i], items[i])
    case Obj(_) => exists keys: seq<string>, texts: seq<string> :: WritesMembers(text, v, keys, texts)
  }

  /** The object's keys in increasing order, each with a text of its value. */
  ghost predicate WritesMembers(text: string, v: Value, keys: seq<string>, texts: seq<string>)
    requires v.Obj?
    decreases v, 0
  {
    && Lists(keys, v.fields.Keys) && Increasing(keys) && |texts| == |keys|
    && text == "{" + Commas(Pairs(keys, texts)) + "}"
    && forall i | 0 <= i < |keys| && keys[i] in v.fields :: Writes(texts[i], v.fields[keys[i]])
  }

  lemma IncreasingIsAscending(keys: seq<string>)
    ensures Increasing(keys) <==> Ascending(keys)
  {
    forall i, j | 0 <= i < j < |keys| ensures CodePointLess(keys[i], keys[j]) <==> Before(keys[i], keys[j]) {
      BeforeExactly(keys[i], keys[j]);
    }
  }

  /** A set has one listing in ascending order. */
  lemma {:induction false} OneAscendingListing(a: seq<string>, b: seq<string>)
    requires Ascending(a) && Ascending(b) && forall k :: k in a <==> k in b
    ensures a == b
  {
    assert a != [] ==> a[0] in b;
    assert b != [] ==> b[0] in a;
    if a != [] {
      HeadsAgree(a, b);
      TailMembers(a);
      TailMembers(b);
      OneAscendingListing(a[1..], b[1..]);
    }
  }

  lemma HeadsAgree(a: seq<string>, b: seq<string>)
    requires Ascending(a) && Ascending(b) && (forall k :: k in a <==> k in b) && a != [] && b != []
    ensures a[0] == b[0]
  {
    assert a[0] in b && b[0] in a;
    BeforeTotal(a[0], b[0]);
  }

  lemma TailMembers(keys: seq<string>)
    requires Ascending(keys) && keys != []
    ensures forall k :: k in keys[1..] <==> k in keys && k != keys[0]
  {
    assert keys == [keys[0]] + keys[1..];
    BeforeTotal(keys[0], keys[0]);
  }

  /** The texts that the encoder writes for the parts of a list and of an object. */
  function ItemTexts(items: seq<Value>): (texts: seq<string>)
    ensures |texts| == |items|
    ensures Enumerates(Sorted()) ==> forall i | 0 <= i < |items| :: texts[i] == Render(items[i], Sorted())
  {
    SortedEnumerates();
    if items == [] then [] else [Render(items[0], Sorted())] + ItemTexts(items[1..])
  }

  function MemberTexts(keys: seq<string>, fields: Fields): (texts: seq<string>)
    requires forall k <- keys :: k in fields
    ensures |texts| == |keys|
    ensures Enumerates(Sorted()) ==> forall i | 0 <= i < |keys| :: texts[i] == Render(fields[keys[i]], Sorted())
  {
    SortedEnumerates();
    if keys == [] then [] else [Render(fields[keys[0]], Sorted())] + MemberTexts(keys[1..], fields)
  }

  lemma {:induction false} ItemsAreCommas(items: seq<Value>)
    requires Enumerates(Sorted())
    ensures RenderItems(items, Sorted()) == Commas(ItemTexts(items))
  {
    if items != [] {
      SortedBelow(items[0], |items|);
      ItemsAreCommas(items[1..]);
      assert ItemTexts(items)[1..] == ItemTexts(items[1..]);
    }
  }

  lemma {:induction false} MembersAreCommas(keys: seq<string>, v: Value)
    requires Enumerates(Sorted()) && v.Obj? && forall k <- keys :: k in v.fields
    ensures RenderMembers(keys, v, Sorted()) == Commas(Pairs(keys, MemberTexts(keys, v.fields)))
  {
    if keys != [] {
      var texts := MemberTexts(keys, v.fields);
      SortedBelow(v.fields[keys[0]], |keys|);
      MembersAreCommas(keys[1..], v);
      assert texts[1..] == MemberTexts(keys[1..], v.fields);
      assert Pairs(keys, texts)[1..] == Pairs(keys[1..], texts[1..]);
    }
  }

  /** The encoder with sorted keys writes exactly that text. */
  lemma {:induction false} RenderExactly(text: string, v: Value)
    requires Enumerates(Sorted())
    ensures Writes(text, v) <==> text == Render(v, Sorted())
    decreases v
  {
    match v
    case List(items) =>
      forall i, t: string | 0 <= i < |items| ensures Writes(t, items[i]) <==> t == Render(items[i], Sorted()) {
        RenderExactly(t, items[i]);
      }
      ListExactly(text, items);
    case Obj(fields) =>
      forall k, t: string | k in v.fields ensures Writes(t, v.fields[k]) <==> t == Render(v.fields[k], Sorted()) {
        RenderExactly(t, v.fields[k]);
      }
      ObjectExactly(text, v);
    case _ =>
  }

  lemma ListExactly(text: string, items: seq<Value>)
    requires Enumerates(Sorted())
    requires forall i, t: string | 0 <= i < |items| :: Writes(t, items[i]) <==> t == Render(items[i], Sorted())
    ensures Writes(text, List(items)) <==> text == Render(List(items), Sorted())
  {
    ItemsAreCommas(items);
    var written := ItemTexts(items);
    if Writes(text, List(items)) {
      var texts: seq<string> :| |texts| == |items| && text == "[" + Commas(texts) + "]"
        && forall i | 0 <= i < |items| :: Writes(texts[i], items[i]);
      assert texts == written;
    }
    if text == Render(List(items), Sorted()) {
      assert forall i | 0 <= i < |items| :: Writes(written[i], items[i]);
    }
  }

  lemma ObjectExactly(text: string, v: Value)
    requires Enumerates(Sorted()) && v.Obj?
    requires forall k, t: string | k in v.fields :: Writes(t, v.fields[k]) <==> t == Render(v.fields[k], Sorted())
    ensures Writes(text, v) <==> text == Render(v, Sorted())
  {
    ObjectText(v);
    IncreasingIsAscending(SortedKeys(v.fields.Keys));
    MembersWrite(v, SortedKeys(v.fields.Keys), MemberTexts(SortedKeys(v.fields.Keys), v.fields));
    if Writes(text, v) {
      WrittenAsRendered(text, v);
    }
  }

  lemma WrittenAsRendered(text: string, v: Value)
    requires Enumerates(Sorted()) && v.Obj? && Writes(text, v)
    requires forall k, t: string | k in v.fields :: Writes(t, v.fields[k]) <==> t == Render(v.fields[k], Sorted())
    ensures text == "{" + Commas(Pairs(SortedKeys(v.fields.Keys), MemberTexts(SortedKeys(v.fields.Keys), v.fields))) + "}"
  {
    var keys: seq<string>, texts: seq<string> :| WritesMembers(text, v, keys, texts);
    SameMembers(text, v, keys, texts);
  }

  lemma ObjectText(v: Value)
    requires Enumerates(Sorted()) && v.Obj?
    ensures Render(v, Sorted())
         == "{" + Commas(Pairs(SortedKeys(v.fields.Keys), MemberTexts(SortedKeys(v.fields.Keys), v.fields))) + "}"
  {
    MembersAreCommas(SortedKeys(v.fields.Keys), v);
  }

  lemma MembersWrite(v: Value, keys: seq<string>, texts: seq<string>)
    requires v.Obj? && Lists(keys, v.fields.Keys) && Increasing(keys) && |texts| == |keys|
    requires Enumerates(Sorted()) && texts == MemberTexts(keys, v.fields)
    requires forall k, t: string | k in v.fields :: Writes(t, v.fields[k]) <==> t == Render(v.fields[k], Sorted())
    ensures Writes("{" + Commas(Pairs(keys, texts)) + "}", v)
  {
    assert WritesMembers("{" + Commas(Pairs(keys, texts)) + "}", v, keys, texts);
  }

  /** Whatever keys and texts make up a text of the object, they are the encoder's. */
  lemma SameMembers(text: string, v: Value, keys: seq<string>, texts: seq<string>)
    requires v.Obj? && WritesMembers(text, v, keys, texts) && Enumerates(Sorted())
    requires forall k, t: string | k in v.fields :: Writes(t, v.fields[k]) <==> t == Render(v.fields[k], Sorted())
    ensures keys == SortedKeys(v.fields.Keys) && texts == MemberTexts(keys, v.fields)
  {
    IncreasingIsAscending(keys);
    OneAscendingListing(keys, SortedKeys(v.fields.Keys));
    forall i | 0 <= i < |keys| ensures texts[i] == MemberTexts(keys, v.fields)[i] {
      assert keys[i] in v.fields && Writes(texts[i], v.fields[keys[i]]);
    }
  }

  /** The canonical text of an object: ASCII only, keys sorted, no spaces. */
  function CanonicalText(fields: Fields): (s: string)
    ensures IsAscii(s)
  {
    SortedEnumerates();
    RenderAscii(Obj(fields), Sorted());
    Render(Obj(fields), Sorted())
  }

  /** Canonical text is the one compact text whose objects, at every depth, have their keys in code point order. */
  lemma CanonicalExactly(fields: Fields, text: string)
    ensures Writes(text, Obj(fields)) <==> text == CanonicalText(fields)
  {
    SortedEnumerates();
    RenderExactly(text, Obj(fields));
  }

  function CanonicalBytes(fields: Fields): Bytes {
    ToBytes(CanonicalText(fields))
  }

  function ParseBytes(b: Bytes): Option<Value> {
    var text :- FromBytes(b);
    Parse(text)
  }

  /** Text after the object is refused. */
  lemma TrailingTextIsRefused(v: Value, ord: KeyOrder, rest: string)
    requires Enumerates(ord) && v.Obj? && rest != [] && rest[0] !in {' ', '\t', '\n', '\r'}
    ensures Parse(Render(v, ord) + rest) == None
  {
    ParseRenderedObject(v, ord, rest);
  }

  /** Of a repeated key the last value counts. */
  lemma RepeatedKeyKeepsLast(key: string, first: Value, last: Value, ord: KeyOrder)
    requires Enumerates(ord)
    ensures Parse("{" + Quote(key) + ":" + Render(first, ord) + "," + Quote(key) + ":" + Render(last, ord) + "}")
         == Some(Obj(map[key := last]))
  {
    var second := Quote(key) + ":" + (Render(last, ord) + "}");
    ParseRendered(last, ord, "}");
    MembersStep(key, Render(last, ord) + "}", map[key := first], last, "}");
    ParseRendered(first, ord, "," + second);
    RepeatedMember(key, first, Render(first, ord), second);
    TwoMembers(Quote(key), Render(first, ord), Render(last, ord));
    assert map[key := first][key := last] == map[key := last];
  }

  lemma RepeatedMember(key: string, first: Value, text: string, second: string)
    requires ParseValue(text + ("," + second)) == Some((first, "," + second))
    ensures ParseValue("{" + (Quote(key) + ":" + (text + ("," + second)))) == ParseMembers(second, map[key := first])
  {
    TailAfterComma(second);
    MembersStep(key, text + ("," + second), map[], first, "," + second);
    ObjectStart(Quote(key) + ":" + (text + ("," + second)));
  }

  lemma TwoMembers(quoted: string, first: string, last: string)
    ensures "{" + quoted + ":" + first + "," + quoted + ":" + last + "}"
         == "{" + (quoted + ":" + (first + ("," + (quoted + ":" + (last + "}")))))
  {
  }

  /** Canonical bytes read back as the object they were written from. */
  lemma CanonicalRoundTrip(fields: Fields)
    ensures ParseBytes(CanonicalBytes(fields)) == Some(Obj(fields))
  {
    SortedEnumerates();
    FromToBytes(CanonicalText(fields));
    ParseRender(Obj(fields), Sorted());
  }

  /** Two objects have the same canonical bytes exactly when they are the same object. */
  lemma CanonicalInjective(a: Fields, b: Fields)
    ensures CanonicalBytes(a) == CanonicalBytes(b) <==> a == b
  {
    CanonicalRoundTrip(a);
    CanonicalRoundTrip(b);
  }

  /** Bytes written with the keys in any order parse and re-encode to the canonical bytes. */
  lemma CanonicalFromAnyOrder(fields: Fields, ord: KeyOrder)
    requires Enumerates(ord)
    ensures IsAscii(Render(Obj(fields), ord))
    ensures ParseBytes(ToBytes(Render(Obj(fields), ord))) == Some(Obj(fields))
  {
    RenderAscii(Obj(fields), ord);
    FromToBytes(Render(Obj(fields), ord));
    ParseRender(Obj(fields), ord);
  }
}
