/** Byte-exact sizes of canonical encodings. */
module JsonSize {
  import opened Contracts
  import opened Text
  import opened Json

  function ValueSize(v: Value): nat {
    SortedEnumerates();
    |Render(v, Sorted())|
  }

  /** A member costs its quoted key, a colon, its value, and a comma or the closing brace. */
  function MemberSize(key: string, value: Value): nat {
    |Quote(key)| + 1 + ValueSize(value) + 1
  }

  /** The canonical size of an object, less its opening brace. */
  function FieldsSize(fields: Fields): nat {
    if fields == map[] then 0 else |CanonicalText(fields)| - 1
  }

  function MembersSize(keys: seq<string>, fields: Fields): nat
    requires forall k <- keys :: k in fields
  {
    if keys == [] then 0 else MemberSize(keys[0], fields[keys[0]]) + MembersSize(keys[1..], fields)
  }

  lemma {:induction false} MembersSizeAppend(a: seq<string>, b: seq<string>, fields: Fields)
    requires forall k <- a + b :: k in fields
    ensures forall k <- a :: k in fields
    ensures forall k <- b :: k in fields
    ensures MembersSize(a + b, fields) == MembersSize(a, fields) + MembersSize(b, fields)
  {
    assert forall k <- a :: k in a + b;
    assert forall k <- b :: k in a + b;
    if a == [] {
      assert a + b == b;
    } else {
      assert (a + b)[1..] == a[1..] + b;
      MembersSizeAppend(a[1..], b, fields);
    }
  }

  lemma MembersSizeRemove(keys: seq<string>, i: nat, fields: Fields)
    requires i < |keys| && forall k <- keys :: k in fields
    ensures forall k <- keys[..i] + keys[i + 1..] :: k in fields
    ensures MembersSize(keys, fields)
         == MemberSize(keys[i], fields[keys[i]]) + MembersSize(keys[..i] + keys[i + 1..], fields)
  {
    assert keys == keys[..i] + ([keys[i]] + keys[i + 1..]);
    assert forall k <- keys[..i] :: k in keys;
    assert forall k <- keys[i + 1..] :: k in keys;
    MembersSizeAppend(keys[..i], [keys[i]] + keys[i + 1..], fields);
    MembersSizeAppend(keys[..i], keys[i + 1..], fields);
  }

  lemma ListsEmpty(keys: seq<string>, s: set<string>)
    requires Lists(keys, s)
    ensures keys == [] <==> s == {}
  {
    if keys != [] {
      assert keys[0] in s;
    }
  }

  /** The size does not depend on the order in which the keys are written. */
  lemma {:induction false} MembersSizeAnyOrder(a: seq<string>, b: seq<string>, s: set<string>, fields: Fields)
    requires Lists(a, s) && Lists(b, s) && s <= fields.Keys
    ensures MembersSize(a, fields) == MembersSize(b, fields)
  {
    ListsEmpty(a, s);
    ListsEmpty(b, s);
    if a != [] {
      var k := a[0];
      assert k in b;
      var i :| 0 <= i < |b| && b[i] == k;
      MembersSizeRemove(b, i, fields);
      ListsWithout(b, s, i);
      assert a[1..] == a[..0] + a[1..];
      ListsWithout(a, s, 0);
      MembersSizeAnyOrder(a[1..], b[..i] + b[i + 1..], s - {k}, fields);
    }
  }

  lemma ListsWithout(b: seq<string>, s: set<string>, i: nat)
    requires Lists(b, s) && i < |b|
    ensures Lists(b[..i] + b[i + 1..], s - {b[i]})
  {
    var rest := b[..i] + b[i + 1..];
    forall k ensures k in rest <==> k in s - {b[i]} {
      if k in s - {b[i]} {
        var j :| 0 <= j < |b| && b[j] == k;
        assert rest[if j < i then j else j - 1] == k;
      }
    }
  }

  lemma {:induction false} RenderedMembersSize(keys: seq<string>, v: Value)
    requires v.Obj? && (forall k <- keys :: k in v.fields) && keys != [] && Enumerates(Sorted())
    ensures |RenderMembers(keys, v, Sorted())| + 1 == MembersSize(keys, v.fields)
  {
    SortedBelow(v.fields[keys[0]], |keys|);
    if |keys| > 1 {
      RenderedMembersSize(keys[1..], v);
    } else {
      assert keys[1..] == [];
    }
  }

  lemma {:induction false} MembersSizeExtends(keys: seq<string>, small: Fields, large: Fields)
    requires forall k <- keys :: k in small && k in large && small[k] == large[k]
    ensures MembersSize(keys, small) == MembersSize(keys, large)
  {
    if keys != [] {
      MembersSizeExtends(keys[1..], small, large);
    }
  }

  lemma FieldsSizeListed(fields: Fields)
    ensures Lists(SortedKeys(fields.Keys), fields.Keys)
    ensures FieldsSize(fields) == MembersSize(SortedKeys(fields.Keys), fields)
  {
    SortedEnumerates();
    var keys := SortedKeys(fields.Keys);
    if keys == [] {
      assert fields == map[];
    } else {
      assert keys[0] in fields;
      RenderedMembersSize(keys, Obj(fields));
    }
  }

  /** A new member adds exactly its own size, whatever its place in the sorted order. */
  lemma FieldAdds(fields: Fields, key: string, value: Value)
    requires key !in fields
    ensures FieldsSize(fields[key := value]) == FieldsSize(fields) + MemberSize(key, value)
  {
    var larger := fields[key := value];
    FieldsSizeListed(fields);
    FieldsSizeListed(larger);
    var before := SortedKeys(fields.Keys);
    var keys := [key] + before;
    assert Lists(keys, larger.Keys);
    MembersSizeAnyOrder(SortedKeys(larger.Keys), keys, larger.Keys, larger);
    assert keys[1..] == before;
    MembersSizeExtends(before, fields, larger);
  }

  /** The size of a whole object that has members. */
  lemma ObjectSize(fields: Fields)
    requires fields != map[]
    ensures ValueSize(Obj(fields)) == |CanonicalBytes(fields)| == 1 + FieldsSize(fields)
  {
    FieldsSizeListed(fields);
  }

  lemma TextSize(text: string)
    ensures ValueSize(Str(text)) == 2 + EscapedLength(text)
  {
  }

  // ---------------------------------------------------------------- members with plain keys

  /** Identifier characters are written as they are. */
  predicate IsPlain(s: string) {
    forall i | 0 <= i < |s| :: IsIdChar(s[i])
  }

  lemma PlainChar(c: char)
    requires IsIdChar(c)
    ensures EscapedSize(c) == 1
  {
  }

  lemma PlainLength(s: string)
    requires IsPlain(s)
    ensures EscapedLength(s) == |s|
  {
    forall i | 0 <= i < |s| ensures EscapedSize(s[i]) <= 1 {
      PlainChar(s[i]);
    }
    PlainEscapedLength(s);
  }

  /** A member with a plain key. */
  lemma PlainMember(key: string, value: Value)
    requires IsPlain(key)
    ensures MemberSize(key, value) == |key| + 4 + ValueSize(value)
  {
    PlainLength(key);
  }

  /** One more member: its key and value, two quotes, a colon and a comma or brace. */
  lemma Adds(fields: Fields, key: string, value: Value)
    requires key !in fields && IsPlain(key)
    ensures FieldsSize(fields[key := value]) == FieldsSize(fields) + |key| + 4 + ValueSize(value)
  {
    FieldAdds(fields, key, value);
    PlainMember(key, value);
  }

  lemma PlainTextSize(text: string)
    requires IsPlain(text)
    ensures ValueSize(Str(text)) == 2 + |text|
  {
    PlainLength(text);
  }

  lemma AddsText(fields: Fields, key: string, text: string)
    requires key !in fields && IsPlain(key)
    ensures FieldsSize(fields[key := Str(text)]) == FieldsSize(fields) + |key| + 6 + EscapedLength(text)
  {
    Adds(fields, key, Str(text));
    TextSize(text);
  }

  lemma AddsPlainText(fields: Fields, key: string, text: string)
    requires key !in fields && IsPlain(key) && IsPlain(text)
    ensures FieldsSize(fields[key := Str(text)]) == FieldsSize(fields) + |key| + 6 + |text|
  {
    AddsText(fields, key, text);
    PlainLength(text);
  }

  /** Three more members at once. */
  lemma AddsThree(fields: Fields, a: string, x: Value, b: string, y: Value, d: string, z: Value)
    requires a !in fields && b !in fields && d !in fields && a != b && a != d && b != d
    requires IsPlain(a) && IsPlain(b) && IsPlain(d)
    ensures FieldsSize(fields[a := x][b := y][d := z])
         == FieldsSize(fields) + |a| + |b| + |d| + 12 + ValueSize(x) + ValueSize(y) + ValueSize(z)
  {
    Adds(fields, a, x);
    Adds(fields[a := x], b, y);
    Adds(fields[a := x][b := y], d, z);
  }

  function FlagLength(flag: bool): nat {
    if flag then 4 else 5
  }
}
