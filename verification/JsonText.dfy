/** Further properties of the JSON parser: objects really are ordered maps, and what was parsed prints and parses again. */
module JsonText {
  import opened Bytes
  import opened Json
  import opened JsonProofs

  // ---- objects ----

  function Find(members: seq<Member>, key: bytes): Option<Value> {
    if members == [] then None
    else if members[0].key == key then Some(members[0].value)
    else Find(members[1..], key)
  }

  /** Assignment sets one key and no other. */
  lemma {:induction false} InsertAssigns(members: seq<Member>, key: bytes, value: Value, other: bytes)
    requires Sorted(members)
    ensures Find(Insert(members, key, value), other) == if other == key then Some(value) else Find(members, other)
  {
    if members == [] {
      assert Insert(members, key, value)[1..] == [];
    } else if Less(key, members[0].key) {
      assert ([Member(key, value)] + members)[1..] == members;
      if other == key {
        LessIsStrict(key, members[0].key);
      }
    } else if members[0].key == key {
      assert Insert(members, key, value)[1..] == members[1..];
    } else {
      assert Insert(members, key, value)[1..] == Insert(members[1..], key, value);
      InsertAssigns(members[1..], key, value, other);
    }
  }

  lemma {:induction false} LessIsTotal(a: bytes, b: bytes)
    ensures Less(a, b) || a == b || Less(b, a)
  {
    if a != [] && b != [] && a[0] == b[0] {
      LessIsTotal(a[1..], b[1..]);
      assert a == [a[0]] + a[1..] && b == [b[0]] + b[1..];
    }
  }

  lemma {:induction false} LessIsTransitive(a: bytes, b: bytes, c: bytes)
    requires Less(a, b) && Less(b, c)
    ensures Less(a, c)
  {
    if a != [] && a[0] == b[0] && b[0] == c[0] {
      LessIsTransitive(a[1..], b[1..], c[1..]);
    }
  }

  /** Every key of an insertion is the new key or an old one. */
  lemma {:induction false} InsertKeys(members: seq<Member>, key: bytes, value: Value, i: nat)
    requires i < |Insert(members, key, value)|
    ensures Insert(members, key, value)[i] == Member(key, value) || Insert(members, key, value)[i] in members
  {
    if members != [] && !Less(key, members[0].key) && members[0].key != key && i > 0 {
      InsertKeys(members[1..], key, value, i - 1);
    }
  }

  lemma HeadBelow(head: Member, tail: seq<Member>)
    requires Sorted(tail) && forall i :: 0 <= i < |tail| ==> Less(head.key, tail[i].key)
    ensures Sorted([head] + tail)
  {}

  /** Insertion keeps the keys in strict order. */
  lemma {:induction false} InsertKeepsOrder(members: seq<Member>, key: bytes, value: Value)
    requires Sorted(members)
    ensures Sorted(Insert(members, key, value))
  {
    var m := Member(key, value);
    if members != [] {
      var head, tail := members[0], members[1..];
      if Less(key, head.key) {
        forall i | 0 <= i < |members| ensures Less(key, members[i].key) {
          if i > 0 {
            LessIsTransitive(key, head.key, members[i].key);
          }
        }
        HeadBelow(m, members);
      } else if head.key == key {
        HeadBelow(m, tail);
      } else {
        LessIsTotal(key, head.key);
        var more := Insert(tail, key, value);
        InsertKeepsOrder(tail, key, value);
        forall i | 0 <= i < |more| ensures Less(head.key, more[i].key) {
          InsertKeys(tail, key, value, i);
        }
        HeadBelow(head, more);
      }
    }
  }

  ghost predicate GoodMembers(members: seq<Member>) {
    Sorted(members) && forall i :: 0 <= i < |members| ==> WellFormed(members[i].value)
  }

  lemma InsertKeepsGood(members: seq<Member>, key: bytes, value: Value)
    requires GoodMembers(members) && WellFormed(value)
    ensures GoodMembers(Insert(members, key, value))
  {
    InsertKeepsOrder(members, key, value);
    var more := Insert(members, key, value);
    forall i | 0 <= i < |more| ensures WellFormed(more[i].value) {
      InsertKeys(members, key, value, i);
    }
  }

  /** Whatever the text, duplicate keys included, every object that comes out is a proper ordered map. */
  lemma {:induction false} ParsedIsWellFormed(s: bytes)
    ensures ParseValue(s).Ok? ==> WellFormed(ParseValue(s).value)
    decreases |s|, 0
  {
    hide ParseScalar, ParseMembers, ParseItems, WellFormed;
    var t := SkipSpace(s);
    ScalarIsWellFormed(t);
    EmptyAreWellFormed();
    if t != [] {
      var u := SkipSpace(t[1..]);
      MembersAreWellFormed(u, []);
      ItemsAreWellFormed(u, []);
    }
  }

  lemma EmptyAreWellFormed()
    ensures WellFormed(Obj([])) && WellFormed(Arr([]))
  {}

  lemma ScalarIsWellFormed(s: bytes)
    ensures ParseScalar(s).Ok? ==> WellFormed(ParseScalar(s).value)
  {}

  lemma {:induction false} MembersAreWellFormed(s: bytes, members: seq<Member>)
    requires GoodMembers(members)
    ensures ParseMembers(s, members).Ok? ==> WellFormed(ParseMembers(s, members).value)
    decreases |s|, 2
  {
    hide ParseMember, Insert;
    var m := ParseMember(s);
    MemberIsWellFormed(s);
    if m.Ok? {
      InsertKeepsGood(members, m.value.key, m.value.value);
      var u := SkipSpace(m.rest);
      if u != [] {
        MembersAreWellFormed(u[1..], Insert(members, m.value.key, m.value.value));
      }
    }
  }

  lemma {:induction false} MemberIsWellFormed(s: bytes)
    ensures ParseMember(s).Ok? ==> WellFormed(ParseMember(s).value.value)
    decreases |s|, 1
  {
    hide ParseValue, ParseString;
    var key := ParseString(SkipSpace(s));
    if key.Ok? {
      var t := SkipSpace(key.rest);
      if t != [] && t[0] == COLON {
        ParsedIsWellFormed(t[1..]);
      }
    }
  }

  lemma {:induction false} ItemsAreWellFormed(s: bytes, items: seq<Value>)
    requires forall i :: 0 <= i < |items| ==> WellFormed(items[i])
    ensures ParseItems(s, items).Ok? ==> WellFormed(ParseItems(s, items).value)
    decreases |s|, 1
  {
    hide ParseValue;
    var v := ParseValue(s);
    ParsedIsWellFormed(s);
    if v.Ok? {
      var u := SkipSpace(v.rest);
      if u != [] {
        ItemsAreWellFormed(u[1..], items + [v.value]);
      }
    }
  }

  /** Printing what was parsed and parsing it again changes nothing, for any text whose numbers are integral. */
  lemma ReprintIsStable(text: bytes)
    requires Parse(text).Document? && Integral(Parse(text).value)
    ensures Parse(Dump(Parse(text).value)) == Parse(text)
  {
    ParsedIsWellFormed(text);
    ParseDump(Parse(text).value);
  }
}
