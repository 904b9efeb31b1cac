/** What Python does with parsed JSON that the models rely on: hashing into sets, counting booleans as numbers, and the
    comparisons that raise. */
module PythonValues {
  import opened Values
  import opened Ordering

  /** Arithmetic takes a boolean for 0 or 1. */
  function Numeric(j: Json): Option<real> {
    match j
    case JNumber(n, _) => Some(n)
    case JBool(b) => Some(if b then 1.0 else 0.0)
    case JNull => None
    case JString(_) => None
    case JArray(_) => None
    case JObject(_) => None
  }

  /** A hashable value up to `==`: the booleans equal the numbers 0 and 1. */
  datatype Key = NoneKey | NumberKey(n: real) | TextKey(s: string)

  /** `hash`; `None` is its TypeError on lists and dictionaries. */
  function KeyOf(j: Json): Option<Key> {
    match j
    case JNull => Some(NoneKey)
    case JString(s) => Some(TextKey(s))
    case JNumber(n, _) => Some(NumberKey(n))
    case JBool(b) => Some(NumberKey(if b then 1.0 else 0.0))
    case JArray(_) => None
    case JObject(_) => None
  }

  function Characters(s: string): set<Key> {
    set c | c in s :: TextKey([c])
  }

  function Names(members: map<string, Json>): set<Key> {
    set name | name in members :: TextKey(name)
  }

  /** `set(j)`; `None` is its TypeError on a value that cannot be iterated or an element that cannot be hashed. */
  function SetOf(j: Json): Option<set<Key>> {
    match j
    case JArray(items) =>
      if forall i | 0 <= i < |items| :: KeyOf(items[i]).Some?
      then Some(set i | 0 <= i < |items| && KeyOf(items[i]).Some? :: KeyOf(items[i]).value)
      else None
    case JObject(members) => Some(Names(members))
    case JString(s) => Some(Characters(s))
    case JNull => None
    case JBool(_) => None
    case JNumber(_, _) => None
  }

  /** The dictionaries that iterating over a value yields, to each of which `.get` is applied; `None`
      when that raises. */
  function DictionariesOf(j: Json): Option<seq<map<string, Json>>> {
    match j
    case JArray(items) =>
      if forall i | 0 <= i < |items| :: items[i].JObject?
      then Some(seq(|items|, i requires 0 <= i < |items| => if items[i].JObject? then items[i].members else map[]))
      else None
    case JObject(members) => if members == map[] then Some([]) else None
    case JString(s) => if s == "" then Some([]) else None
    case JNull => None
    case JBool(_) => None
    case JNumber(_, _) => None
  }

  lemma DictionariesOfObjects(items: seq<Json>, dictionaries: seq<map<string, Json>>)
    requires |items| == |dictionaries| && forall i :: 0 <= i < |items| ==> items[i] == JObject(dictionaries[i])
    ensures DictionariesOf(JArray(items)) == Some(dictionaries)
  {
    assert DictionariesOf(JArray(items)).value == dictionaries;
  }

  lemma NothingToCollect()
    ensures SetOf(JArray([])) == Some({})
  {
    assert SetOf(JArray([])).value == {};
  }

  /** `item.get(name)`: a missing key reads as null. */
  function Get(item: map<string, Json>, name: string): Json {
    if name in item then item[name] else JNull
  }

  /** `<` raises except between numbers and between texts. */
  predicate Comparable(a: Key, b: Key) {
    (a.NumberKey? && b.NumberKey?) || (a.TextKey? && b.TextKey?)
  }

  /** An order of all keys that is Python's on comparable ones. */
  predicate KeyLe(a: Key, b: Key) {
    match a
    case NoneKey => true
    case NumberKey(n) => b.TextKey? || (b.NumberKey? && n <= b.n)
    case TextKey(s) => b.TextKey? && StrLe(s, b.s)
  }

  lemma KeyLeTotalOrder()
    ensures TotalOrder(KeyLe)
  {
    forall a, b ensures KeyLe(a, b) || KeyLe(b, a) {
      if a.TextKey? && b.TextKey? { StrLeTotal(a.s, b.s); }
    }
    forall a, b, c | KeyLe(a, b) && KeyLe(b, c) ensures KeyLe(a, c) {
      if a.TextKey? { StrLeTransitive(a.s, b.s, c.s); }
    }
  }

  lemma KeyLeAntisymmetric(a: Key, b: Key)
    requires KeyLe(a, b) && KeyLe(b, a)
    ensures a == b
  {
    if a.TextKey? {
      StrLeAntisymmetric(a.s, b.s);
    }
  }

  // ----- what these say of the values

  /** The value counts as this number. */
  predicate CountsAs(j: Json, x: real) {
    || (j.JNumber? && j.n == x)
    || (j == JBool(true) && x == 1.0)
    || (j == JBool(false) && x == 0.0)
  }

  lemma NumericIff(j: Json, x: real)
    ensures Numeric(j) == Some(x) <==> CountsAs(j, x)
  {
  }

  /** `==` between values that can be hashed. */
  ghost predicate EqualValues(a: Json, b: Json) {
    || (a == JNull && b == JNull)
    || (a.JString? && b.JString? && a.s == b.s)
    || exists x :: CountsAs(a, x) && CountsAs(b, x)
  }

  /** Two values are one element of a set exactly when they are equal and neither is a list or a dictionary. */
  lemma SameKeyIff(a: Json, b: Json)
    ensures KeyOf(a) == None <==> a.JArray? || a.JObject?
    ensures KeyOf(a).Some? && KeyOf(a) == KeyOf(b) <==> EqualValues(a, b)
  {
    if KeyOf(a).Some? && KeyOf(a) == KeyOf(b) && KeyOf(a).value.NumberKey? {
      assert CountsAs(a, KeyOf(a).value.n) && CountsAs(b, KeyOf(a).value.n);
    }
  }

  /** The value can be iterated and yields this one: the items of a list, the names in a dictionary, the characters of
      a text. */
  ghost predicate Yields(j: Json, x: Json) {
    || (j.JArray? && x in j.items)
    || (j.JObject? && x.JString? && x.s in j.members)
    || (j.JString? && exists c :: c in j.s && x == JString([c]))
  }

  /** A set can be made of a value exactly when it is a list, a dictionary or a text and yields no list or dictionary;
      the set holds what equals something it yields. */
  lemma SetOfIff(j: Json, x: Json)
    requires KeyOf(x).Some?
    ensures SetOf(j).Some? <==>
      (j.JArray? || j.JObject? || j.JString?) && forall y :: Yields(j, y) ==> !y.JArray? && !y.JObject?
    ensures SetOf(j).Some? ==> (KeyOf(x).value in SetOf(j).value <==> exists y :: Yields(j, y) && EqualValues(x, y))
  {
    if j.JArray? {
      forall i | 0 <= i < |j.items| ensures Yields(j, j.items[i]) {
      }
    }
    forall y ensures KeyOf(x) == KeyOf(y) <==> EqualValues(x, y) {
      SameKeyIff(x, y);
    }
    if SetOf(j).Some? {
      match j
      case JArray(items) =>
      case JObject(members) => NamesYielded(j, x);
      case JString(s) => CharactersYielded(j, x);
    }
  }

  lemma NamesYielded(j: Json, x: Json)
    requires j.JObject? && KeyOf(x).Some?
    ensures KeyOf(x).value in Names(j.members) <==> exists y :: Yields(j, y) && EqualValues(x, y)
  {
    if KeyOf(x).value in Names(j.members) {
      assert x.JString? && x.s in j.members;
      assert Yields(j, x) && EqualValues(x, x);
    }
  }

  lemma CharactersYielded(j: Json, x: Json)
    requires j.JString? && KeyOf(x).Some?
    ensures KeyOf(x).value in Characters(j.s) <==> exists y :: Yields(j, y) && EqualValues(x, y)
  {
    if KeyOf(x).value in Characters(j.s) {
      assert x.JString?;
      var c :| c in j.s && TextKey([c]) == KeyOf(x).value;
      assert x.s == [c];
      assert Yields(j, x) && EqualValues(x, x);
    }
  }

  /** The dictionaries of a value are what it yields, if that is nothing but dictionaries. */
  lemma DictionariesOfIff(j: Json, dictionaries: seq<map<string, Json>>)
    ensures DictionariesOf(j) == Some(dictionaries) <==>
      || (&& j.JArray? && |j.items| == |dictionaries|
          && forall i :: 0 <= i < |j.items| ==> j.items[i] == JObject(dictionaries[i]))
      || ((j == JObject(map[]) || j == JString("")) && dictionaries == [])
  {
    if && j.JArray? && |j.items| == |dictionaries|
       && forall i :: 0 <= i < |j.items| ==> j.items[i] == JObject(dictionaries[i])
    {
      DictionariesOfObjects(j.items, dictionaries);
    }
    if j.JArray? && DictionariesOf(j) == Some(dictionaries) {
      forall i | 0 <= i < |j.items| ensures j.items[i] == JObject(dictionaries[i]) {
        assert j.items[i].JObject?;
      }
    }
  }
}
