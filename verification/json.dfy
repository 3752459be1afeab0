/**
 * JSON values as the replay log stores them. Object key order is not
 * modelled. A dictionary with integer keys is written with each key as its
 * decimal text, as the standard JSON encoder does, and read back by parsing
 * the keys.
 */
module JsonValues {
  import opened Wrappers
  import opened Text

  datatype Json =
    | JNull
    | JBool(b: bool)
    | JInt(i: int)
    | JReal(r: real)
    | JStr(s: string)
    | JArr(items: seq<Json>)
    | JObj(fields: map<string, Json>)

  /** Every key of the dictionary parses back to itself. */
  lemma KeysParseBack(m: map<int, Json>)
    ensures forall i :: i in m ==> ParseInt(IntToString(i)) == Some(i)
  {
    forall i | i in m ensures ParseInt(IntToString(i)) == Some(i) {
      ParseIntOfIntToString(i);
    }
  }

  /** A key that is the decimal text of an integer, in the encoder's own spelling. */
  predicate CanonicalInt(k: string) {
    ParseInt(k).Some? && IntToString(ParseInt(k).value) == k
  }

  /** The object the encoder writes for an integer-keyed dictionary. */
  function IntKeyed(m: map<int, Json>): map<string, Json> {
    KeysParseBack(m);
    var keys := set i | i in m :: IntToString(i);
    map k | k in keys :: m[ParseInt(k).value]
  }

  /** Each entry is written under its key's decimal text, and nothing else is written. */
  lemma IntKeyedShape(m: map<int, Json>)
    ensures forall i :: i in m ==> IntToString(i) in IntKeyed(m) && IntKeyed(m)[IntToString(i)] == m[i]
    ensures forall k :: k in IntKeyed(m) ==> CanonicalInt(k) && ParseInt(k).value in m
  {
    KeysParseBack(m);
  }

  /** Reads an integer-keyed dictionary back; fails on a key that is not an integer's text. */
  function IntKeyedFrom(o: map<string, Json>): Option<map<int, Json>> {
    if forall k :: k in o ==> CanonicalInt(k) then
      var keys := set k | k in o :: ParseInt(k).value;
      Some(map i | i in keys :: o[IntToString(i)])
    else None
  }

  /** Reading succeeds exactly when every key is an integer's canonical text, and each entry moves to its parsed key. */
  lemma IntKeyedFromShape(o: map<string, Json>)
    ensures var r := IntKeyedFrom(o);
      && (r.Some? <==> forall k :: k in o ==> CanonicalInt(k))
      && (r.Some? ==> forall k :: k in o ==> ParseInt(k).value in r.value && r.value[ParseInt(k).value] == o[k])
      && (r.Some? ==> forall i :: i in r.value ==> IntToString(i) in o)
  {
  }

  /** Writing an integer-keyed dictionary and reading it back gives the same dictionary. */
  lemma IntKeyedRoundTrip(m: map<int, Json>)
    ensures IntKeyedFrom(IntKeyed(m)) == Some(m)
  {
    var o := IntKeyed(m);
    IntKeyedShape(m);
    IntKeyedFromShape(o);
    var r := IntKeyedFrom(o).value;
    SameEntries(m, o, r);
  }

  /** A map written under decimal keys and a map read back from them agree when each key parses back. */
  lemma SameEntries(m: map<int, Json>, o: map<string, Json>, r: map<int, Json>)
    requires forall i :: i in m ==> IntToString(i) in o && o[IntToString(i)] == m[i]
    requires forall k :: k in o ==> ParseInt(k).Some? && ParseInt(k).value in m
    requires forall k :: k in o ==> ParseInt(k).Some? && ParseInt(k).value in r && r[ParseInt(k).value] == o[k]
    requires forall i :: i in r ==> IntToString(i) in o
    ensures r == m
  {
    forall i | i in m ensures i in r && r[i] == m[i] {
      ParseIntOfIntToString(i);
      assert IntToString(i) in o;
    }
    forall i | i in r ensures i in m {
      ParseIntOfIntToString(i);
      assert IntToString(i) in o;
    }
  }

  /** The field of an object, if the value is an object that has it. */
  function Field(j: Json, key: string): Option<Json> {
    if j.JObj? && key in j.fields then Some(j.fields[key]) else None
  }

  function AsInt(j: Option<Json>): Option<int> {
    if j.Some? && j.value.JInt? then Some(j.value.i) else None
  }

  function AsStr(j: Option<Json>): Option<string> {
    if j.Some? && j.value.JStr? then Some(j.value.s) else None
  }

  function AsBool(j: Option<Json>): Option<bool> {
    if j.Some? && j.value.JBool? then Some(j.value.b) else None
  }

  function AsReal(j: Option<Json>): Option<real> {
    if j.Some? && j.value.JReal? then Some(j.value.r) else None
  }
}
