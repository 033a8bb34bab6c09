/** `src/yaml_vars.rs`: turning a parsed YAML variables document into the JSON
    value the template engine renders with, and the fallback of
    `substitute_variables` when the engine fails. Parsing YAML and rendering
    templates are library code and appear here only as given values and
    functions. */
module YamlVars {
  import opened Wrappers
  import Assoc
  import opened RustInts

  const I64_MIN: int := -0x8000_0000_0000_0000
  const I64_MAX: int := 0x7FFF_FFFF_FFFF_FFFF

  /** A negative Rust `i64`. */
  type NegI64 = x: int | -0x8000_0000_0000_0000 <= x < 0 witness -1

  /** `serde_yaml::Number`: a non-negative integer, a negative integer, or a
      double given by its IEEE 754 bit pattern. */
  datatype YamlNumber = PosInt(u: U64) | NegInt(i: NegI64) | Float(bits: bv64)

  /** `serde_yaml::Value`. A mapping is the list of its entries in document
      order; its keys may be any value. */
  datatype Yaml =
    | Null
    | Bool(b: bool)
    | Number(n: YamlNumber)
    | String(s: string)
    | Sequence(items: seq<Yaml>)
    | Mapping(entries: seq<(Yaml, Yaml)>)
    | Tagged(tag: string, value: Yaml)

  /** `serde_json::Number`, with the same three representations. */
  datatype JsonNumber = JsonPosInt(u: U64) | JsonNegInt(i: NegI64) | JsonFloat(bits: bv64)

  /** `serde_json::Value`; an object is a map from its keys (a `BTreeMap`). */
  datatype Json =
    | JsonNull
    | JsonBool(b: bool)
    | JsonNumber(n: JsonNumber)
    | JsonString(s: string)
    | JsonArray(items: seq<Json>)
    | JsonObject(fields: map<string, Json>)

  /** `Number::as_i64`: integers that fit an `i64`. */
  function AsI64(n: YamlNumber): Option<int> {
    match n
    case PosInt(u) => if u <= I64_MAX then Some(u) else None
    case NegInt(i) => Some(i)
    case Float(_) => None
  }

  /** `Number::as_u64`: the non-negative integers. */
  function AsU64(n: YamlNumber): Option<U64> {
    match n
    case PosInt(u) => Some(u)
    case _ => None
  }

  /** A double is finite when its exponent bits are not all ones. */
  predicate IsFinite(bits: bv64) {
    (bits >> 52) & 0x7FF != 0x7FF
  }

  /** `serde_json::Number::from` for an `i64`. */
  function FromI64(i: int): JsonNumber
    requires I64_MIN <= i <= I64_MAX
  {
    if i < 0 then JsonNegInt(i) else JsonPosInt(i)
  }

  /** `serde_json::Number::from_f64`: nothing for NaN and the infinities. */
  function FromF64(bits: bv64): Option<JsonNumber> {
    if IsFinite(bits) then Some(JsonFloat(bits)) else None
  }

  /** The number branch of `yaml_to_json`. */
  function NumberToJson(n: YamlNumber): Json {
    match AsI64(n)
    case Some(i) => JsonNumber(FromI64(i))
    case None =>
      match AsU64(n)
      case Some(u) => JsonNumber(JsonPosInt(u))
      case None =>
        if n.Float? then
          match FromF64(n.bits)
          case Some(j) => JsonNumber(j)
          case None => JsonNull
        else JsonNull
  }

  /** The exact integer a YAML number stands for, if it is an integer. */
  function IntValue(n: YamlNumber): Option<int> {
    match n
    case PosInt(u) => Some(u)
    case NegInt(i) => Some(i)
    case Float(_) => None
  }

  /** The exact integer a JSON number stands for, if it is an integer. */
  function JsonIntValue(n: JsonNumber): Option<int> {
    match n
    case JsonPosInt(u) => Some(u)
    case JsonNegInt(i) => Some(i)
    case JsonFloat(_) => None
  }

  /** Integers keep their exact value; finite doubles keep their bits, and
      NaN and the infinities become `null`. */
  lemma NumberToJsonExact(n: YamlNumber)
    ensures IntValue(n).Some? ==>
      NumberToJson(n).JsonNumber? && JsonIntValue(NumberToJson(n).n) == IntValue(n)
    ensures n.Float? && IsFinite(n.bits) ==> NumberToJson(n) == JsonNumber(JsonFloat(n.bits))
    ensures n.Float? && !IsFinite(n.bits) ==> NumberToJson(n) == JsonNull
  {
  }

  /** A mapping entry whose key is a string, with its value converted, as an
      object field; any other entry gives nothing. */
  function StringKeyed(entry: (Yaml, Json)): Option<(string, Json)> {
    if entry.0.String? then Some((entry.0.s, entry.1)) else None
  }

  /** `yaml_to_json`. */
  function ToJson(y: Yaml): Json
    decreases y
  {
    match y
    case Null => JsonNull
    case Bool(b) => JsonBool(b)
    case Number(n) => NumberToJson(n)
    case String(s) => JsonString(s)
    case Sequence(items) =>
      JsonArray(seq(|items|, i requires 0 <= i < |items| => ToJson(items[i])))
    case Mapping(entries) =>
      JsonObject(ObjectOf(entries, seq(|entries|, i requires 0 <= i < |entries| => ToJson(entries[i].1))))
    case Tagged(_, value) => ToJson(value)
  }

  /** The object built from the entries of a mapping, given their converted
      values: string-keyed entries inserted in order. */
  function ObjectOf(entries: seq<(Yaml, Yaml)>, values: seq<Json>): map<string, Json>
    requires |values| == |entries|
  {
    Assoc.FromPairs(Assoc.FilterMap(Converted(entries, values), StringKeyed))
  }

  /** Each key next to its converted value. */
  function Converted(entries: seq<(Yaml, Yaml)>, values: seq<Json>): (r: seq<(Yaml, Json)>)
    requires |values| == |entries|
    ensures |r| == |entries|
    ensures forall i :: 0 <= i < |r| ==> r[i] == (entries[i].0, values[i])
  {
    seq(|entries|, i requires 0 <= i < |entries| => (entries[i].0, values[i]))
  }

  /** The object of a mapping has exactly the mapping's string keys. */
  lemma MappingKeys(entries: seq<(Yaml, Yaml)>, k: string)
    ensures k in ToJson(Mapping(entries)).fields <==>
      exists i :: 0 <= i < |entries| && entries[i].0 == String(k)
  {
    var values := seq(|entries|, i requires 0 <= i < |entries| => ToJson(entries[i].1));
    var pairs := Converted(entries, values);
    Assoc.FilterMapKeys(pairs, StringKeyed, k);
    if exists i :: 0 <= i < |entries| && entries[i].0 == String(k) {
      var i :| 0 <= i < |entries| && entries[i].0 == String(k);
      assert Assoc.Yields(pairs, StringKeyed, i, k);
    }
    if exists i :: Assoc.Yields(pairs, StringKeyed, i, k) {
      var i :| Assoc.Yields(pairs, StringKeyed, i, k);
      assert entries[i].0 == String(k);
    }
  }

  /** The field of a string key is the converted value of the last entry with
      that key. */
  lemma MappingLastWins(entries: seq<(Yaml, Yaml)>, i: nat, k: string)
    requires i < |entries| && entries[i].0 == String(k)
    requires forall j :: i < j < |entries| ==> entries[j].0 != String(k)
    ensures k in ToJson(Mapping(entries)).fields
    ensures ToJson(Mapping(entries)).fields[k] == ToJson(entries[i].1)
  {
    var values := seq(|entries|, i requires 0 <= i < |entries| => ToJson(entries[i].1));
    var pairs := Converted(entries, values);
    forall j | i < j < |pairs|
      ensures !Assoc.Yields(pairs, StringKeyed, j, k)
    {
      assert entries[j].0 != String(k);
    }
    Assoc.FilterMapLastWins(pairs, StringKeyed, i, k, values[i]);
  }

  /** A sequence becomes an array of the same length, element by element. */
  lemma SequenceElementwise(items: seq<Yaml>)
    ensures ToJson(Sequence(items)).JsonArray?
    ensures |ToJson(Sequence(items)).items| == |items|
    ensures forall i :: 0 <= i < |items| ==> ToJson(Sequence(items)).items[i] == ToJson(items[i])
  {
  }

  /** The value with the tags removed from every value position, at any
      depth; mapping keys keep theirs. */
  function Untagged(y: Yaml): (r: Yaml)
    decreases y
  {
    match y
    case Sequence(items) =>
      Sequence(seq(|items|, i requires 0 <= i < |items| => Untagged(items[i])))
    case Mapping(entries) =>
      Mapping(seq(|entries|, i requires 0 <= i < |entries| => (entries[i].0, Untagged(entries[i].1))))
    case Tagged(_, value) => Untagged(value)
    case _ => y
  }

  /** Tags in value positions are transparent: removing them, at any depth,
      changes nothing in the JSON value. */
  lemma {:induction false} TagsTransparent(y: Yaml)
    ensures ToJson(Untagged(y)) == ToJson(y)
    decreases y
  {
    match y
    case Sequence(items) =>
      forall i | 0 <= i < |items| ensures ToJson(Untagged(items[i])) == ToJson(items[i]) {
        TagsTransparent(items[i]);
      }
    case Mapping(entries) =>
      var u := Untagged(y).entries;
      forall i | 0 <= i < |entries| ensures ToJson(u[i].1) == ToJson(entries[i].1) {
        TagsTransparent(entries[i].1);
      }
      var values := seq(|entries|, i requires 0 <= i < |entries| => ToJson(entries[i].1));
      var uvalues := seq(|u|, i requires 0 <= i < |u| => ToJson(u[i].1));
      assert uvalues == values;
      assert Converted(u, uvalues) == Converted(entries, values);
    case Tagged(_, value) =>
      TagsTransparent(value);
    case _ =>
  }

  /** A tag on a mapping key is not transparent: a tagged string key is not
      a string key, so its entry is dropped. */
  lemma TaggedKeyDropped(tag: string, k: string, v: Yaml)
    ensures ToJson(Mapping([(Tagged(tag, String(k)), v)])).fields == map[]
  {
    var entries := [(Tagged(tag, String(k)), v)];
    forall key | key in ToJson(Mapping(entries)).fields ensures false {
      MappingKeys(entries, key);
    }
  }

  /** `yaml_to_json` as the program runs it: recursion over the value, with
      the loops of a sequence and of a mapping in the two methods below. */
  method YamlToJson(y: Yaml) returns (j: Json)
    ensures j == ToJson(y)
    decreases y, 1
  {
    match y
    case Null => j := JsonNull;
    case Bool(b) => j := JsonBool(b);
    case Number(n) => j := NumberToJson(n);
    case String(s) => j := JsonString(s);
    case Sequence(items) => j := SequenceToJson(items);
    case Mapping(entries) => j := MappingToJson(entries);
    case Tagged(_, value) => j := YamlToJson(value);
  }

  /** The sequence branch of `yaml_to_json`: a loop that converts each item
      and pushes it onto an array. */
  method SequenceToJson(items: seq<Yaml>) returns (j: Json)
    ensures j == ToJson(Sequence(items))
    decreases Sequence(items), 0
  {
    var arr: seq<Json> := [];
    for i := 0 to |items|
      invariant |arr| == i
      invariant forall k :: 0 <= k < i ==> arr[k] == ToJson(items[k])
    {
      var item := YamlToJson(items[i]);
      arr := arr + [item];
    }
    j := JsonArray(arr);
  }

  /** The mapping branch of `yaml_to_json`: a loop that inserts each
      string-keyed entry, converted, into a map. */
  method MappingToJson(entries: seq<(Yaml, Yaml)>) returns (j: Json)
    ensures j == ToJson(Mapping(entries))
    decreases Mapping(entries), 0
  {
    ghost var values := seq(|entries|, i requires 0 <= i < |entries| => ToJson(entries[i].1));
    ghost var pairs := Converted(entries, values);
    var obj: map<string, Json> := map[];
    for i := 0 to |entries|
      invariant obj == Assoc.FromPairs(Assoc.FilterMap(pairs[..i], StringKeyed))
    {
      var (k, v) := entries[i];
      assert pairs[..i + 1] == pairs[..i] + [pairs[i]];
      Assoc.FilterMapSnoc(pairs[..i], pairs[i], StringKeyed);
      if k.String? {
        var value := YamlToJson(v);
        assert StringKeyed(pairs[i]) == Some((k.s, value));
        obj := obj[k.s := value];
      } else {
        assert StringKeyed(pairs[i]) == None;
      }
    }
    assert pairs[..|entries|] == pairs;
    j := JsonObject(obj);
  }

  /** The template engine, known only by its two outcomes: registering the
      content as a template, and rendering it with a JSON value. */
  datatype TemplateEngine = TemplateEngine(
    register: string -> Result<(), string>,
    render: (string, Json) -> Result<string, string>)

  /** `substitute_variables`: the rendered text, or the content unchanged
      when the engine fails to register or to render it. */
  function SubstituteVariables(content: string, variables: Yaml, engine: TemplateEngine): string {
    match engine.register(content)
    case Failure(_) => content
    case Success(_) =>
      match engine.render(content, ToJson(variables))
      case Success(result) => result
      case Failure(_) => content
  }

  /** The substituted text is a successful rendering of the content with the
      converted variables, or, whenever the engine fails, the content itself. */
  lemma SubstituteVariablesFallback(content: string, variables: Yaml, engine: TemplateEngine)
    ensures engine.register(content).Failure? ==> SubstituteVariables(content, variables, engine) == content
    ensures engine.register(content).Success? && engine.render(content, ToJson(variables)).Failure? ==>
      SubstituteVariables(content, variables, engine) == content
    ensures var r := SubstituteVariables(content, variables, engine);
      r == content || engine.render(content, ToJson(variables)) == Success(r)
    ensures engine.register(content).Success? && engine.render(content, ToJson(variables)).Success? ==>
      SubstituteVariables(content, variables, engine) == engine.render(content, ToJson(variables)).value
  {
  }

  /** Only the JSON form of the variables reaches the engine: variables that
      convert alike substitute alike. */
  lemma SubstituteSeesJsonOnly(content: string, v1: Yaml, v2: Yaml, engine: TemplateEngine)
    requires ToJson(v1) == ToJson(v2)
    ensures SubstituteVariables(content, v1, engine) == SubstituteVariables(content, v2, engine)
  {
  }
}
