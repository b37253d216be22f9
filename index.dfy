/**
 * The decision logic of the command-line driver (src/index.ts): which
 * directory entries are taken as input, how a parsed JSON document is
 * classified, and how each collection of an array is named on output.
 * Directory listing, file reading and JSON parsing are not modelled: the
 * classifier starts from an already-parsed value.
 */
module Index {

  import opened Wrappers
  import opened Types
  import opened Converter

  // ------------------------------------------------------------ file filter

  predicate EndsWith(s: string, suffix: string) {
    |suffix| <= |s| && s[|s| - |suffix|..] == suffix
  }

  predicate OccursAt(s: string, part: string, i: int) {
    0 <= i && i + |part| <= |s| && s[i..i + |part|] == part
  }

  predicate Contains(s: string, part: string) {
    exists i | 0 <= i <= |s| :: OccursAt(s, part, i)
  }

  /** The input filter: a `.json` file that is not itself a converter output. */
  predicate AcceptsInputFile(file: string) {
    EndsWith(file, ".json") && !Contains(file, EnvironmentMarker) && !Contains(file, CollectionMarker)
  }

  /** An ordinary export such as `workspace.json`, whose stem has no `_`, is taken as input. */
  lemma PlainJsonAccepted(stem: string)
    requires forall i :: 0 <= i < |stem| ==> stem[i] != '_'
    ensures AcceptsInputFile(stem + ".json")
  {
    var file := stem + ".json";
    assert EndsWith(file, ".json") by {
      assert file[|file| - 5..] == ".json";
    }
    forall marker | marker == EnvironmentMarker || marker == CollectionMarker
      ensures !Contains(file, marker)
    {
      forall i | 0 <= i <= |file| ensures !OccursAt(file, marker, i) {
        if i + |marker| <= |file| {
          assert file[i..i + |marker|][0] == file[i];
          if i < |stem| {
            assert file[i] == stem[i];
          }
        }
      }
    }
  }

  /** Every file the converter writes is refused by the input filter, so no output is converted again. */
  lemma OutputsNotReprocessed(baseName: string, suffix: string)
    ensures !AcceptsInputFile(CollectionFileName(baseName, suffix))
    ensures !AcceptsInputFile(EnvironmentFileName(baseName))
  {
    var c := CollectionFileName(baseName, suffix);
    var n := |c| - |CollectionMarker| - 5;
    assert c[n..][..|CollectionMarker|] == c[n..n + |CollectionMarker|];
    assert OccursAt(c, CollectionMarker, n);
    var e := EnvironmentFileName(baseName);
    assert e[|baseName|..][..|EnvironmentMarker|] == e[|baseName|..|baseName| + |EnvironmentMarker|];
    assert OccursAt(e, EnvironmentMarker, |baseName|);
  }

  // ------------------------------------------------------------ classifier

  /** A value as `JSON.parse` yields it. */
  datatype Json =
    | JNull
    | JBool(b: bool)
    | JNumber(n: real)
    | JString(s: string)
    | JArray(elems: seq<Json>)
    | JObject(fields: map<string, Json>)

  /**
   * `value.key`: present only for an object holding the key. (On `null`
   * JavaScript throws instead; the driver catches that and converts
   * nothing, which the classifier reports as Unrecognized.)
   */
  function Get(j: Json, key: string): Option<Json> {
    if j.JObject? && key in j.fields then Some(j.fields[key]) else None
  }

  /** JavaScript truthiness of a possibly absent value: arrays and objects, even empty ones, are truthy. */
  predicate Truthy(v: Option<Json>) {
    match v
    case None => false
    case Some(JNull) => false
    case Some(JBool(b)) => b
    case Some(JNumber(n)) => n != 0.0
    case Some(JString(s)) => s != ""
    case Some(JArray(_)) => true
    case Some(JObject(_)) => true
  }

  /** `item.folders || item.requests`. */
  predicate CollectionLike(j: Json) {
    Truthy(Get(j, "folders")) || Truthy(Get(j, "requests"))
  }

  /** `json.variables && Array.isArray(json.variables)`. */
  predicate HasVariablesArray(j: Json) {
    Get(j, "variables").Some? && Get(j, "variables").value.JArray?
  }

  predicate AllCollectionLike(items: seq<Json>) {
    forall i :: 0 <= i < |items| ==> CollectionLike(items[i])
  }

  datatype Classification = CollectionArray | Environment | SingleCollection | Unrecognized

  /**
   * The specification of the driver's if-chain: an array is a collection
   * array when all its elements look like collections; otherwise an object
   * with a `variables` array is an environment, one with truthy `folders`
   * or `requests` a single collection, and anything else is skipped.
   */
  function Classify(j: Json): (c: Classification)
    ensures c == CollectionArray ==> j.JArray?
    ensures c == Environment || c == SingleCollection ==> j.JObject?
    ensures j.JArray? ==> (c == CollectionArray <==> AllCollectionLike(j.elems))
    ensures !j.JArray? ==> (c == Environment <==> HasVariablesArray(j))
    ensures !j.JArray? && !HasVariablesArray(j) ==> (c == SingleCollection <==> CollectionLike(j))
  {
    if j.JArray? then
      if AllCollectionLike(j.elems) then CollectionArray else Unrecognized
    else if HasVariablesArray(j) then Environment
    else if CollectionLike(j) then SingleCollection
    else Unrecognized
  }

  /**
   * The driver's classification as the source writes it: for an array, a
   * flag cleared, with `break`, at the first element without truthy
   * `folders` or `requests`; then the if-chain on the other shapes.
   */
  method ClassifyDocument(json: Json) returns (c: Classification)
    ensures c == Classify(json)
  {
    if json.JArray? {
      var isCollectionArray := true;
      var items := json.elems;
      var n := 0;
      while n < |items|
        invariant 0 <= n <= |items|
        invariant isCollectionArray <==> AllCollectionLike(items[..n])
        invariant !isCollectionArray ==> !AllCollectionLike(items)
        invariant isCollectionArray && n == |items| ==> AllCollectionLike(items)
      {
        var item := items[n];
        if !Truthy(Get(item, "folders")) && !Truthy(Get(item, "requests")) {
          isCollectionArray := false;
          break;
        }
        n := n + 1;
      }
      if isCollectionArray {
        assert items[..n] == items;
        c := CollectionArray;
      } else {
        c := Unrecognized;
      }
    } else if Get(json, "variables").Some? && Truthy(Get(json, "variables")) && Get(json, "variables").value.JArray? {
      c := Environment;
    } else if Truthy(Get(json, "folders")) || Truthy(Get(json, "requests")) {
      c := SingleCollection;
    } else {
      c := Unrecognized;
    }
  }

  /** One element without truthy `folders` or `requests` rejects the whole array. */
  lemma MixedArrayRejected(items: seq<Json>, k: nat)
    requires k < |items| && !CollectionLike(items[k])
    ensures Classify(JArray(items)) == Unrecognized
  {
    assert !AllCollectionLike(items);
  }

  /** The empty array qualifies, vacuously, as an array of collections. */
  lemma EmptyArrayIsCollectionArray()
    ensures Classify(JArray([])) == CollectionArray
  {
  }

  /** The `variables` test comes first: an object with a `variables` array is an environment even when it also has folders. */
  lemma EnvironmentBeforeCollection(fields: map<string, Json>)
    requires "variables" in fields && fields["variables"].JArray?
    ensures Classify(JObject(fields)) == Environment
  {
  }

  /** A `variables` field that is not an array falls through to the collection test. */
  lemma NonArrayVariablesFallThrough(fields: map<string, Json>)
    requires "variables" in fields && !fields["variables"].JArray?
    ensures Classify(JObject(fields)) == (if CollectionLike(JObject(fields)) then SingleCollection else Unrecognized)
  {
  }

  /** `[{folders: []}, {requests: []}]` is an array of collections; `[{folders: []}, {foo: 1}]` is not. */
  lemma ArrayExamples()
    ensures Classify(JArray([JObject(map["folders" := JArray([])]), JObject(map["requests" := JArray([])])])) == CollectionArray
    ensures Classify(JArray([JObject(map["folders" := JArray([])]), JObject(map["foo" := JNumber(1.0)])])) == Unrecognized
  {
    var mixed := [JObject(map["folders" := JArray([])]), JObject(map["foo" := JNumber(1.0)])];
    assert !CollectionLike(mixed[1]);
    MixedArrayRejected(mixed, 1);
  }

  // ------------------------------------------------------------ safe names

  predicate IsAsciiAlphanumeric(c: char) {
    ('a' <= c <= 'z') || ('A' <= c <= 'Z') || ('0' <= c <= '9')
  }

  predicate IsSafeChar(c: char) {
    ('a' <= c <= 'z') || ('0' <= c <= '9') || c == '_'
  }

  function ToLowerAscii(c: char): char {
    if 'A' <= c <= 'Z' then (c as int - 'A' as int + 'a' as int) as char else c
  }

  /** A character outside the Basic Multilingual Plane is two UTF-16 code units. */
  predicate IsAstral(c: char) {
    c as int >= 0x1_0000
  }

  /** The length JavaScript reports: UTF-16 code units. */
  function Utf16Length(s: string): nat
    decreases |s|
  {
    if s == [] then 0 else (if IsAstral(s[0]) then 2 else 1) + Utf16Length(s[1..])
  }

  /**
   * `name.replace(/[^a-zA-Z0-9]/g, '_').toLowerCase()`. The pattern has no
   * `u` flag, so it sees UTF-16 code units: an astral character is two
   * units and becomes `__`.
   */
  function SafeName(name: string): (r: string)
    ensures |r| == Utf16Length(name)
    ensures forall i :: 0 <= i < |r| ==> IsSafeChar(r[i])
    decreases |name|
  {
    if name == [] then ""
    else
      var c := name[0];
      (if IsAsciiAlphanumeric(c) then [ToLowerAscii(c)] else if IsAstral(c) then "__" else "_") + SafeName(name[1..])
  }

  /** On a name without astral characters, SafeName works character by character: alphanumerics lowercased, the rest `_`. */
  lemma {:induction false} SafeNameByChar(name: string)
    requires forall i :: 0 <= i < |name| ==> !IsAstral(name[i])
    ensures |SafeName(name)| == |name|
    ensures forall i :: 0 <= i < |name| ==>
      SafeName(name)[i] == if IsAsciiAlphanumeric(name[i]) then ToLowerAscii(name[i]) else '_'
    decreases |name|
  {
    if name != [] {
      SafeNameByChar(name[1..]);
      var r := SafeName(name);
      assert r[1..] == SafeName(name[1..]);
      forall i | 1 <= i < |name|
        ensures r[i] == if IsAsciiAlphanumeric(name[i]) then ToLowerAscii(name[i]) else '_'
      {
        assert r[i] == SafeName(name[1..])[i - 1];
        assert name[1..][i - 1] == name[i];
      }
    }
  }

  /** One character: an ASCII alphanumeric lowercased, an astral character `__`, anything else `_`. */
  lemma SafeNameChar(c: char)
    ensures SafeName([c]) == if IsAsciiAlphanumeric(c) then [ToLowerAscii(c)] else if IsAstral(c) then "__" else "_"
  {
    assert [c][1..] == [];
  }

  /** SafeName works piece by piece: the name of a concatenation is the concatenation of the names. */
  lemma {:induction false} SafeNameAppend(a: string, b: string)
    ensures SafeName(a + b) == SafeName(a) + SafeName(b)
    decreases |a|
  {
    if a == [] {
      assert a + b == b;
    } else {
      assert (a + b)[0] == a[0];
      assert (a + b)[1..] == a[1..] + b;
      SafeNameAppend(a[1..], b);
    }
  }

  // ------------------------------------------------------- array suffixes

  function DigitChar(d: nat): char
    requires d < 10
  {
    ('0' as int + d) as char
  }

  predicate AllDigits(s: string) {
    forall i :: 0 <= i < |s| ==> '0' <= s[i] <= '9'
  }

  /** `${index}`: the decimal rendering of a natural number. */
  function Decimal(n: nat): (r: string)
    ensures |r| >= 1 && AllDigits(r)
    decreases n
  {
    if n < 10 then [DigitChar(n)] else Decimal(n / 10) + [DigitChar(n % 10)]
  }

  function ParseDecimal(s: string): nat
    requires AllDigits(s)
    decreases |s|
  {
    if s == [] then 0 else ParseDecimal(s[..|s| - 1]) * 10 + (s[|s| - 1] as int - '0' as int)
  }

  /** Reading the decimal rendering back gives the number: distinct indices render differently. */
  lemma {:induction false} DecimalRoundTrip(n: nat)
    ensures ParseDecimal(Decimal(n)) == n
    decreases n
  {
    if n >= 10 {
      DecimalRoundTrip(n / 10);
      var s := Decimal(n);
      assert s[..|s| - 1] == Decimal(n / 10);
    }
  }

  /** The suffix given to the collection at `index` of an array: `${safeName}_${index}`. */
  function ArraySuffix(name: string, index: nat): string {
    SafeName(name) + "_" + Decimal(index)
  }

  /** The suffix holds only safe characters, starts with the safe name, and its trailing digits read back as the index. */
  lemma ArraySuffixReadBack(name: string, index: nat)
    ensures var r := ArraySuffix(name, index);
      (forall i :: 0 <= i < |r| ==> IsSafeChar(r[i])) &&
      |r| == |SafeName(name)| + 1 + |Decimal(index)| &&
      r[..|SafeName(name)|] == SafeName(name) &&
      DigitTail(r) == Decimal(index) && ParseDecimal(DigitTail(r)) == index
  {
    var safe, digits := SafeName(name), Decimal(index);
    SuffixShape(safe, digits);
    DigitTailAfterUnderscore(safe, digits);
    DecimalRoundTrip(index);
  }

  lemma SuffixShape(safe: string, digits: string)
    requires forall i :: 0 <= i < |safe| ==> IsSafeChar(safe[i])
    requires AllDigits(digits)
    ensures forall i :: 0 <= i < |safe + "_" + digits| ==> IsSafeChar((safe + "_" + digits)[i])
    ensures (safe + "_" + digits)[..|safe|] == safe
  {
    var r := safe + "_" + digits;
    forall i | 0 <= i < |r| ensures IsSafeChar(r[i]) {
      if i > |safe| {
        assert r[i] == digits[i - |safe| - 1];
      }
    }
  }

  /** The longest run of decimal digits at the end of s. */
  function DigitTail(s: string): (r: string)
    ensures AllDigits(r)
    decreases |s|
  {
    if s == [] || !('0' <= s[|s| - 1] <= '9') then ""
    else DigitTail(s[..|s| - 1]) + [s[|s| - 1]]
  }

  /** After a `_`, a digit string is exactly the digit tail. */
  lemma {:induction false} DigitTailAfterUnderscore(x: string, d: string)
    requires AllDigits(d)
    ensures DigitTail(x + "_" + d) == d
    decreases |d|
  {
    var s := x + "_" + d;
    if d != [] {
      var d' := d[..|d| - 1];
      assert s[..|s| - 1] == x + "_" + d';
      DigitTailAfterUnderscore(x, d');
      assert d' + [d[|d| - 1]] == d;
    }
  }

  /** The collections of one array are written to pairwise distinct files: the index alone tells them apart. */
  lemma ArrayFileNamesDistinct(baseName: string, name1: string, i: nat, name2: string, j: nat)
    requires i != j
    ensures CollectionFileName(baseName, ArraySuffix(name1, i)) != CollectionFileName(baseName, ArraySuffix(name2, j))
  {
    var s1 := ArraySuffix(name1, i);
    var s2 := ArraySuffix(name2, j);
    ArraySuffixReadBack(name1, i);
    ArraySuffixReadBack(name2, j);
    assert s1 != s2 by {
      assert ParseDecimal(DigitTail(s1)) != ParseDecimal(DigitTail(s2));
    }
    CollectionFileNameInjective(baseName, s1, s2);
  }

  /** Non-empty suffixes are read back from the file name: different suffixes, different files. */
  lemma CollectionFileNameInjective(baseName: string, s1: string, s2: string)
    requires s1 != "" && s2 != ""
    ensures CollectionFileName(baseName, s1) == CollectionFileName(baseName, s2) ==> s1 == s2
  {
    var f1 := CollectionFileName(baseName, s1);
    var f2 := CollectionFileName(baseName, s2);
    if f1 == f2 {
      assert |s1| == |s2|;
      assert "_" + s1 == "_" + s2;
      assert s1 == ("_" + s1)[1..];
    }
  }

  /**
   * The driver's `forEach` over a collection array: each collection is
   * converted with the suffix built from its safe name and its index.
   */
  method ConvertCollectionArray(baseName: string, collections: seq<HoppscotchCollection>)
    returns (outputs: seq<(PostmanCollection, string)>)
    ensures |outputs| == |collections|
    ensures forall i :: 0 <= i < |collections| ==>
      outputs[i] == (CollectionOf(collections[i]), CollectionFileName(baseName, ArraySuffix(collections[i].name, i)))
  {
    ghost var expected := seq(|collections|, i requires 0 <= i < |collections| =>
      (CollectionOf(collections[i]), CollectionFileName(baseName, ArraySuffix(collections[i].name, i))));
    outputs := [];
    for index := 0 to |collections|
      invariant outputs == expected[..index]
    {
      var collection := collections[index];
      var safeName := SafeName(collection.name);
      var suffix := safeName + "_" + Decimal(index);
      assert suffix == ArraySuffix(collection.name, index);
      var converted, fileName := ProcessCollectionConversion(collection, baseName, suffix);
      assert expected[index] == (converted, fileName);
      PushStep([], expected, index);
      outputs := outputs + [(converted, fileName)];
    }
    assert outputs == expected;
  }
}
