/**
  The canonical form of a JSON document: decode into maps, then print with sorted keys. Documents
  are trees whose objects are lists of members, as in section 4 of RFC 8259, so members have an
  order and names may repeat. Printing a tree as text is taken to be injective.
  */
module CanonicalJson {
  import opened Values
  import opened TextOrder

  datatype Json =
    | JNull
    | JBool(flag: bool)
    | JNumber(number: real)
    | JString(text: string)
    | JArray(items: seq<Json>)
    | JObject(members: seq<Member>)

  datatype Member = Member(name: string, value: Json)

  // ---------- Decoding: the last of repeated names wins ----------

  function Decode(j: Json): Value
    decreases j
  {
    match j
    case JNull => Null
    case JBool(b) => Bool(b)
    case JNumber(n) => Number(n)
    case JString(s) => Text(s)
    case JArray(items) => List(seq(|items|, i requires 0 <= i < |items| => Decode(items[i])))
    case JObject(members) => Object(DecodeMembers(members))
  }

  function DecodeMembers(members: seq<Member>): map<string, Value>
    decreases members
  {
    if members == [] then map[]
    else DecodeMembers(members[..|members| - 1])[members[|members| - 1].name := DecodeMember(members[|members| - 1])]
  }

  function DecodeMember(m: Member): Value
    decreases m
  {
    Decode(m.value)
  }

  // ---------- Key order ----------

  predicate IsLast(k: string, keys: set<string>) {
    k in keys && forall x | x in keys && x != k :: Before(x, k)
  }

  lemma {:induction false} LastExists(keys: set<string>)
    requires keys != {}
    ensures exists k :: IsLast(k, keys)
    decreases |keys|
  {
    var x :| x in keys;
    if keys == {x} {
      assert IsLast(x, keys);
    } else {
      LastExists(keys - {x});
      var k :| IsLast(k, keys - {x});
      BeforeTotal(x, k);
      if Before(x, k) {
        assert IsLast(k, keys);
      } else {
        forall y | y in keys && y != x ensures Before(y, x) {
          if y != k {
            BeforeTransitive(y, k, x);
          }
        }
        assert IsLast(x, keys);
      }
    }
  }

  lemma LastIsUnique(keys: set<string>)
    ensures forall a, b | IsLast(a, keys) && IsLast(b, keys) :: a == b
  {
    forall a, b | IsLast(a, keys) && IsLast(b, keys) ensures a == b {
      if a != b {
        BeforeTransitive(a, b, a);
        BeforeIrreflexive(a);
      }
    }
  }

  function LastOf(keys: set<string>): (k: string)
    requires keys != {}
    ensures IsLast(k, keys)
  {
    LastExists(keys);
    LastIsUnique(keys);
    var k :| IsLast(k, keys);
    k
  }

  function SortedKeys(keys: set<string>): (s: seq<string>)
    ensures forall k :: k in s <==> k in keys
    decreases |keys|
  {
    if keys == {} then [] else SortedKeys(keys - {LastOf(keys)}) + [LastOf(keys)]
  }

  ghost predicate Ascending(s: seq<string>) {
    forall i, j | 0 <= i < j < |s| :: Before(s[i], s[j])
  }

  lemma {:induction false} SortedKeysAscend(keys: set<string>)
    ensures Ascending(SortedKeys(keys))
    decreases |keys|
  {
    if keys != {} {
      var k := LastOf(keys);
      SortedKeysAscend(keys - {k});
      assert forall x | x in SortedKeys(keys - {k}) :: Before(x, k);
    }
  }

  // ---------- Encoding, and the normal form ----------

  function Encode(v: Value): Json
    decreases v
  {
    match v
    case Null => JNull
    case Bool(b) => JBool(b)
    case Number(n) => JNumber(n)
    case Text(s) => JString(s)
    case List(items) => JArray(seq(|items|, i requires 0 <= i < |items| => Encode(items[i])))
    case Object(fields) =>
      var keys := SortedKeys(fields.Keys);
      JObject(seq(|keys|, i requires 0 <= i < |keys| => assert keys[i] in fields; Member(keys[i], Encode(fields[keys[i]]))))
  }

  /** The program's deterministic serialisation. */
  function Normalize(j: Json): Json {
    Encode(Decode(j))
  }

  // ---------- Printing and reading back ----------

  ghost function Names(members: seq<Member>): set<string> {
    set m | m in members :: m.name
  }

  /** Where the member that counts for a name stands. */
  ghost function LastIndex(members: seq<Member>, k: string): (i: nat)
    requires k in Names(members)
    ensures i < |members| && members[i].name == k
    ensures forall j | i < j < |members| :: members[j].name != k
  {
    if members[|members| - 1].name == k then |members| - 1 else LastIndex(members[..|members| - 1], k)
  }

  lemma {:induction false} DecodeMembersLookup(members: seq<Member>)
    ensures DecodeMembers(members).Keys == Names(members)
    ensures forall k | k in Names(members) :: DecodeMembers(members)[k] == Decode(members[LastIndex(members, k)].value)
  {
    if members != [] {
      DecodeMembersLookup(members[..|members| - 1]);
      assert members == members[..|members| - 1] + [members[|members| - 1]];
    }
  }

  ghost function EncodedMembers(fields: map<string, Value>): (r: seq<Member>)
    ensures |r| == |SortedKeys(fields.Keys)|
    ensures forall i | 0 <= i < |r| :: SortedKeys(fields.Keys)[i] in fields.Keys && r[i] == Member(SortedKeys(fields.Keys)[i], Encode(fields[SortedKeys(fields.Keys)[i]]))
  {
    Encode(Object(fields)).members
  }

  lemma EncodedNames(fields: map<string, Value>)
    ensures Names(EncodedMembers(fields)) == fields.Keys
  {
    var keys, ms := SortedKeys(fields.Keys), EncodedMembers(fields);
    forall k | k in fields.Keys ensures k in Names(ms) {
      var i :| 0 <= i < |keys| && keys[i] == k;
      assert ms[i] in ms;
    }
  }

  /** Reading back what was printed gives the value that was printed. */
  lemma {:induction false} DecodeEncode(v: Value)
    ensures Decode(Encode(v)) == v
    decreases v
  {
    match v
    case List(items) =>
      forall i | 0 <= i < |items| ensures Decode(Encode(items[i])) == items[i] {
        DecodeEncode(items[i]);
      }
      assert Decode(Encode(v)).items == items;
    case Object(fields) =>
      var ms := EncodedMembers(fields);
      EncodedNames(fields);
      DecodeMembersLookup(ms);
      forall k | k in fields ensures DecodeMembers(ms)[k] == fields[k] {
        assert ms[LastIndex(ms, k)] == Member(k, Encode(fields[k]));
        DecodeEncode(fields[k]);
      }
      assert DecodeMembers(ms) == fields;
    case _ =>
  }

  lemma NormalizePreservesMeaning(j: Json)
    ensures Decode(Normalize(j)) == Decode(j)
  {
    DecodeEncode(Decode(j));
  }

  lemma NormalizeIdempotent(j: Json)
    ensures Normalize(Normalize(j)) == Normalize(j)
  {
    DecodeEncode(Decode(j));
  }

  // ---------- What the normal form identifies ----------

  /** Equal up to the order of members and to members shadowed by a later one of the same name. */
  ghost predicate Alike(a: Json, b: Json)
    decreases a
  {
    match (a, b)
    case (JArray(s), JArray(t)) => |s| == |t| && forall i | 0 <= i < |s| :: Alike(s[i], t[i])
    case (JObject(s), JObject(t)) =>
      && Names(s) == Names(t)
      && forall k | k in Names(s) :: Alike(s[LastIndex(s, k)].value, t[LastIndex(t, k)].value)
    case _ => a == b
  }

  ghost predicate Agree(a: Json, b: Json) {
    Alike(a, b) <==> Decode(a) == Decode(b)
  }

  lemma ArraysAgree(s: seq<Json>, t: seq<Json>)
    requires |s| == |t| ==> forall i | 0 <= i < |s| :: Agree(s[i], t[i])
    ensures Agree(JArray(s), JArray(t))
  {
    var v, w := Decode(JArray(s)).items, Decode(JArray(t)).items;
    if |s| == |t| {
      assert forall i | 0 <= i < |s| :: Agree(s[i], t[i]) && v[i] == Decode(s[i]) && w[i] == Decode(t[i]);
    } else {
      assert |v| != |w|;
    }
  }

  lemma ObjectsAgree(s: seq<Member>, t: seq<Member>)
    requires Names(s) == Names(t) ==> forall k | k in Names(s) :: Agree(s[LastIndex(s, k)].value, t[LastIndex(t, k)].value)
    ensures Agree(JObject(s), JObject(t))
  {
    DecodeMembersLookup(s);
    DecodeMembersLookup(t);
    if Names(s) == Names(t) {
      assert forall k | k in Names(s) :: Agree(s[LastIndex(s, k)].value, t[LastIndex(t, k)].value);
      assert DecodeMembers(s) == DecodeMembers(t) <==> forall k | k in Names(s) :: DecodeMembers(s)[k] == DecodeMembers(t)[k];
    } else {
      assert DecodeMembers(s).Keys != DecodeMembers(t).Keys;
    }
  }

  lemma {:induction false} AlikeIffSameMeaning(a: Json, b: Json)
    ensures Alike(a, b) <==> Decode(a) == Decode(b)
    decreases a
  {
    match (a, b)
    case (JArray(s), JArray(t)) =>
      if |s| == |t| {
        forall i | 0 <= i < |s| ensures Agree(s[i], t[i]) {
          AlikeIffSameMeaning(s[i], t[i]);
        }
      }
      ArraysAgree(s, t);
    case (JObject(s), JObject(t)) =>
      if Names(s) == Names(t) {
        forall k | k in Names(s) ensures Agree(s[LastIndex(s, k)].value, t[LastIndex(t, k)].value) {
          AlikeIffSameMeaning(s[LastIndex(s, k)].value, t[LastIndex(t, k)].value);
        }
      }
      ObjectsAgree(s, t);
    case _ =>
  }

  /** Two documents get the same normal form exactly when they are alike. */
  lemma NormalFormsAgreeIffAlike(a: Json, b: Json)
    ensures Normalize(a) == Normalize(b) <==> Alike(a, b)
  {
    AlikeIffSameMeaning(a, b);
    DecodeEncode(Decode(a));
    DecodeEncode(Decode(b));
  }

  // ---------- Which documents are in normal form ----------

  /** Member names strictly ascend, at every depth. */
  ghost predicate Canonical(j: Json)
    decreases j
  {
    match j
    case JArray(items) => forall i | 0 <= i < |items| :: Canonical(items[i])
    case JObject(ms) =>
      && (forall i, k | 0 <= i < k < |ms| :: Before(ms[i].name, ms[k].name))
      && forall i | 0 <= i < |ms| :: Canonical(ms[i].value)
    case _ => true
  }

  lemma {:induction false} EncodeIsCanonical(v: Value)
    ensures Canonical(Encode(v))
    decreases v
  {
    match v
    case List(items) =>
      forall i | 0 <= i < |items| ensures Canonical(Encode(items[i])) {
        EncodeIsCanonical(items[i]);
      }
    case Object(fields) =>
      SortedKeysAscend(fields.Keys);
      var ms := EncodedMembers(fields);
      forall i | 0 <= i < |ms| ensures Canonical(ms[i].value) {
        EncodeIsCanonical(fields[SortedKeys(fields.Keys)[i]]);
      }
    case _ =>
  }

  lemma {:induction false} AscendingIsSorted(s: seq<string>, keys: set<string>)
    requires Ascending(s) && forall k :: k in s <==> k in keys
    ensures s == SortedKeys(keys)
    decreases |s|
  {
    if s != [] {
      var n, last := |s| - 1, s[|s| - 1];
      assert last in keys;
      var k := LastOf(keys);
      assert k in s;
      if k != last {
        var i :| 0 <= i < |s| && s[i] == k;
        BeforeTransitive(last, k, last);
        BeforeIrreflexive(last);
        assert false;
      }
      forall x ensures x in s[..n] <==> x in keys - {k} {
        if x in s[..n] {
          var i :| 0 <= i < n && s[i] == x;
          BeforeIrreflexive(x);
        }
      }
      AscendingIsSorted(s[..n], keys - {k});
      assert s == s[..n] + [last];
    } else {
      assert keys == {};
    }
  }

  function NameSeq(members: seq<Member>): seq<string> {
    seq(|members|, i requires 0 <= i < |members| => members[i].name)
  }

  /** The names of a canonical object, in order, are its sorted keys. */
  lemma CanonicalNames(ms: seq<Member>)
    requires Canonical(JObject(ms))
    ensures SortedKeys(DecodeMembers(ms).Keys) == NameSeq(ms)
  {
    var names, keys := NameSeq(ms), DecodeMembers(ms).Keys;
    DecodeMembersLookup(ms);
    forall k ensures k in names <==> k in keys {
      if k in keys {
        assert names[LastIndex(ms, k)] == k;
      }
      if k in names {
        var i :| 0 <= i < |names| && names[i] == k;
        assert ms[i] in ms;
      }
    }
    AscendingIsSorted(names, keys);
  }

  lemma CanonicalLookup(ms: seq<Member>, i: nat)
    requires Canonical(JObject(ms)) && i < |ms|
    ensures ms[i].name in DecodeMembers(ms) && DecodeMembers(ms)[ms[i].name] == Decode(ms[i].value)
  {
    DecodeMembersLookup(ms);
    assert ms[i] in ms;
    var last := LastIndex(ms, ms[i].name);
    if i < last {
      BeforeIrreflexive(ms[i].name);
    }
    assert last == i;
  }

  lemma {:induction false} CanonicalIsFixed(j: Json)
    requires Canonical(j)
    ensures Normalize(j) == j
    decreases j
  {
    match j
    case JArray(items) =>
      forall i | 0 <= i < |items| ensures Encode(Decode(items[i])) == items[i] {
        CanonicalIsFixed(items[i]);
      }
      assert Normalize(j).items == items;
    case JObject(ms) =>
      var out := EncodedMembers(DecodeMembers(ms));
      CanonicalNames(ms);
      forall i | 0 <= i < |ms| ensures out[i] == ms[i] {
        CanonicalLookup(ms, i);
        CanonicalIsFixed(ms[i].value);
      }
      assert out == ms;
    case _ =>
  }

  /** The canonical documents are exactly those that serialisation leaves as they are. */
  lemma CanonicalIffFixed(j: Json)
    ensures Canonical(j) <==> Normalize(j) == j
  {
    EncodeIsCanonical(Decode(j));
    if Canonical(j) {
      CanonicalIsFixed(j);
    }
  }

  /** At every depth, each member's name is ahead of every later one. */
  ghost predicate NamesAscend(j: Json)
    decreases j
  {
    match j
    case JArray(items) => forall i | 0 <= i < |items| :: NamesAscend(items[i])
    case JObject(ms) =>
      && (forall i, k | 0 <= i < k < |ms| :: Ahead(ms[i].name, ms[k].name))
      && forall i | 0 <= i < |ms| :: NamesAscend(ms[i].value)
    case _ => true
  }

  lemma {:induction false} CanonicalIffNamesAscend(j: Json)
    ensures Canonical(j) <==> NamesAscend(j)
    decreases j
  {
    match j
    case JArray(items) =>
      forall i | 0 <= i < |items| ensures Canonical(items[i]) <==> NamesAscend(items[i]) {
        CanonicalIffNamesAscend(items[i]);
      }
    case JObject(ms) =>
      forall i, k | 0 <= i < k < |ms| ensures Before(ms[i].name, ms[k].name) <==> Ahead(ms[i].name, ms[k].name) {
        BeforeIff(ms[i].name, ms[k].name);
      }
      forall i | 0 <= i < |ms| ensures Canonical(ms[i].value) <==> NamesAscend(ms[i].value) {
        CanonicalIffNamesAscend(ms[i].value);
      }
    case _ =>
  }

  /** In every normal form names ascend at every depth, and a document in which they do is its own. */
  lemma NormalFormsAscend(j: Json)
    ensures NamesAscend(Normalize(j))
    ensures NamesAscend(j) <==> Normalize(j) == j
  {
    EncodeIsCanonical(Decode(j));
    CanonicalIffNamesAscend(Normalize(j));
    CanonicalIffNamesAscend(j);
    CanonicalIffFixed(j);
  }
}
