/** The field grammar (src/parser.rs:114-226): bracketed attributes, rule keywords, field types
    (keywords, `group`, `map<K,V>`, type names) and whole field declarations, including the
    brace body that a `group` field carries. */
module FieldGrammar {
  import opened Descriptor
  import opened Lexer

  /** `key_val` (src/parser.rs:114-121): `[ key = value ]`. The value is every character up to
      the first `]` (nom's `is_not!("]")`, which needs at least one), trimmed. Only one pair is
      read per pair of brackets: a comma does not end the value. The `=` is the one right after
      the key and its breaks, so `[a = b = c]` has the key `a` and the value `b = c`. */
  function KeyVal(s: string, i: nat): (r: Res<(string, string)>)
    requires i <= |s|
    ensures r.Done? ==> At(s, i, "[") && i < r.pos <= |s|
    ensures r.Done? ==> r.value.0 == Word(s, Breaks(s, i + 1)).value
    ensures r.Done? ==> var q := Breaks(s, Word(s, Breaks(s, i + 1)).pos);
      && q < |s| && s[q] == '='
      && BracketValue(s, q).Done? && r.value.1 == BracketValue(s, q).value
      && r.pos == Breaks(s, BracketValue(s, q).pos)
  {
    var _ :- Tag(s, i, "[");
    var key := Word(s, Breaks(s, i + 1));
    var q := Breaks(s, key.pos);
    var _ :- Tag(s, q, "=");
    AtSingle(s, q, '=');
    var value :- BracketValue(s, q);
    Done((key.value, value.value), Breaks(s, value.pos))
  }

  /** The value of a pair whose `=` stands at `q`: the breaks after it are skipped and the text up
      to the first `]`, which must not be empty, is trimmed; the cursor moves past the `]`. */
  function BracketValue(s: string, q: nat): (r: Res<string>)
    requires q < |s|
    ensures r.Done? ==> q + 1 < r.pos <= |s|
    ensures r.Done? ==> ValueAfter(s, q, r.pos - 1, r.value)
  {
    var start := Breaks(s, q + 1);
    match TakeUntil(s, start, "]")
    case Error => Error
    case Done(raw, e) =>
      if e == start then Error
      else
        RawValue(s, q, e, raw);
        var value := Trim(raw);
        assert ValueAfter(s, q, e + 1 - 1, value);
        Done(value, e + 1)
  }

  lemma RawValue(s: string, q: nat, e: nat, raw: string)
    requires q < |s| && Breaks(s, q + 1) < e && At(s, e, "]") && raw == s[Breaks(s, q + 1)..e]
    requires forall k | Breaks(s, q + 1) <= k < e :: !At(s, k, "]")
    ensures ValueAfter(s, q, e, Trim(raw))
  {
    AtSingle(s, e, ']');
    CharFree(s, Breaks(s, q + 1), e, ']');
  }

  /** The value `v` is the trimmed text from after the `=` at `q` and its breaks up to the `]` at
      `e`, the first `]` there. */
  predicate ValueAfter(s: string, q: nat, e: nat, v: string) {
    && q < e < |s| && Breaks(s, q + 1) < e && s[e] == ']'
    && (forall k | Breaks(s, q + 1) <= k < e :: s[k] != ']')
    && v == Trim(s[Breaks(s, q + 1)..e])
  }

  /** `many0!(key_val)`: every bracketed pair, in order. */
  function KeyVals(s: string, i: nat): (r: Res<seq<(string, string)>>)
    requires i <= |s|
    ensures r.Done? && i <= r.pos <= |s|
    ensures !At(s, i, "[") ==> r == Done([], i)
    ensures KeyVal(s, i).Error? ==> r == Done([], i)
    ensures KeyVal(s, i).Done? ==>
      |r.value| > 0 && r.value[0] == KeyVal(s, i).value && KeyVal(s, i).pos <= r.pos
    decreases |s| - i
  {
    var kv := KeyVal(s, i);
    if kv.Error? then Done([], i)
    else
      var more := KeyVals(s, kv.pos);
      Done([kv.value] + more.value, more.pos)
  }

  /** The pairs `kvs` are written in brackets from `p` on, one after another, and the last of them,
      with the breaks after it, ends at `e`. */
  predicate PairsAt(s: string, p: nat, kvs: seq<(string, string)>, e: nat)
    decreases |kvs|
  {
    && p <= |s|
    && if |kvs| == 0 then p == e
       else
         && KeyVal(s, p).Done? && KeyVal(s, p).value == kvs[0]
         && PairsAt(s, KeyVal(s, p).pos, kvs[1..], e)
  }

  /** `many0!(key_val)` reads the bracketed pairs written one after another, in written order, up
      to where no pair follows. */
  lemma {:induction false} KeyValsInOrder(s: string, p: nat, kvs: seq<(string, string)>, e: nat)
    requires PairsAt(s, p, kvs, e) && e <= |s| && KeyVal(s, e).Error?
    ensures KeyVals(s, p) == Done(kvs, e)
    decreases |kvs|
  {
    if |kvs| > 0 {
      var q := KeyVal(s, p).pos;
      KeyValsInOrder(s, q, kvs[1..], e);
      KeyValsStep(s, p, kvs, q, e);
    }
  }

  lemma KeyValsStep(s: string, p: nat, kvs: seq<(string, string)>, q: nat, e: nat)
    requires |kvs| > 0 && p <= |s| && KeyVal(s, p) == Done(kvs[0], q)
    requires q <= |s| && KeyVals(s, q) == Done(kvs[1..], e)
    ensures KeyVals(s, p) == Done(kvs, e)
  {
    KeyValsUnfold(s, p, kvs[0], q);
    assert [kvs[0]] + kvs[1..] == kvs;
  }

  lemma KeyValsUnfold(s: string, p: nat, kv: (string, string), q: nat)
    requires p <= |s| && KeyVal(s, p) == Done(kv, q)
    ensures q <= |s| && KeyVals(s, p) == Done([kv] + KeyVals(s, q).value, KeyVals(s, q).pos)
  {
  }

  /** `rule` (src/parser.rs:123-128). */
  function Rule(s: string, i: nat): (r: Res<Rule>)
    requires i <= |s|
    ensures r.Done? ==> At(s, i, RuleKeyword(r.value)) && r.pos == i + |RuleKeyword(r.value)|
    ensures r.Error? ==> !At(s, i, "optional") && !At(s, i, "repeated") && !At(s, i, "required")
  {
    if At(s, i, "optional") then Done(Optional, i + 8)
    else if At(s, i, "repeated") then Done(Repeated, i + 8)
    else if At(s, i, "required") then Done(Required, i + 8)
    else Error
  }

  function RuleKeyword(ru: Rule): string {
    match ru
    case Optional => "optional"
    case Repeated => "repeated"
    case Required => "required"
  }

  /** The keyword alternatives of `field_type` (src/parser.rs:132-149), in the order they are
      tried. Each is a plain prefix match: `int32x` starts with the tag `int32`. */
  const TypeTags: seq<(string, FieldType)> := [
    ("int32", Int32), ("int64", Int64), ("uint32", Uint32), ("uint64", Uint64),
    ("sint32", Sint32), ("sint64", Sint64), ("fixed32", Fixed32), ("sfixed32", Sfixed32),
    ("fixed64", Fixed64), ("sfixed64", Sfixed64), ("bool", Bool), ("string", String),
    ("ref_counted_string", RefCountedString), ("bytes", Bytes),
    ("ref_counted_bytes", RefCountedBytes), ("float", Float), ("double", Double),
    ("group", Group([]))]

  /** The first keyword tag among the last `n` of `TypeTags` that stands at the cursor;
      `field_type` searches all of them. */
  function FirstTag(s: string, i: nat, n: nat): (r: Option<nat>)
    requires n <= |TypeTags|
    ensures r.Some? ==> |TypeTags| - n <= r.value < |TypeTags| && At(s, i, TypeTags[r.value].0)
  {
    if n == 0 then None
    else
      var k := |TypeTags| - n;
      if At(s, i, TypeTags[k].0) then Some(k) else FirstTag(s, i, n - 1)
  }

  /** `alt!` order: no tag before the one found matches (none at all when none is found). */
  lemma {:induction false} FirstTagFirst(s: string, i: nat, n: nat)
    requires n <= |TypeTags|
    ensures forall j | |TypeTags| - n <= j < |TypeTags| &&
                       (FirstTag(s, i, n).None? || j < FirstTag(s, i, n).value)
      :: !At(s, i, TypeTags[j].0)
  {
    if n > 0 && !At(s, i, TypeTags[|TypeTags| - n].0) {
      FirstTagFirst(s, i, n - 1);
    }
  }

  /** Conversely, the first matching tag is the one found. */
  lemma {:induction false} FirstTagSome(s: string, i: nat, n: nat, k: nat)
    requires |TypeTags| - n <= k < |TypeTags| && n <= |TypeTags| && At(s, i, TypeTags[k].0)
    requires forall j | |TypeTags| - n <= j < k :: !At(s, i, TypeTags[j].0)
    ensures FirstTag(s, i, n) == Some(k)
  {
    if |TypeTags| - n < k {
      FirstTagSome(s, i, n - 1, k);
    }
  }

  /** When no tag matches, none is found. */
  lemma {:induction false} FirstTagNone(s: string, i: nat, n: nat)
    requires n <= |TypeTags|
    requires forall j | |TypeTags| - n <= j < |TypeTags| :: !At(s, i, TypeTags[j].0)
    ensures FirstTag(s, i, n).None?
  {
    if n > 0 {
      FirstTagNone(s, i, n - 1);
    }
  }

  /** `field_type` (src/parser.rs:130-152): the first keyword tag that matches, else `map<K,V>`,
      else any word (possibly empty) as the name of a message or enum type. It never fails. */
  function FieldType(s: string, i: nat): (r: Res<FieldType>)
    requires i <= |s|
    ensures r.Done? && i <= r.pos <= |s|
    decreases |s| - i, 1
  {
    match FirstTag(s, i, |TypeTags|)
    case Some(k) => Done(TypeTags[k].1, i + |TypeTags[k].0|)
    case None =>
      var m := MapField(s, i);
      if m.Done? then Done(Map(m.value.0, m.value.1), m.pos)
      else
        var w := Word(s, i);
        Done(MessageOrEnum(w.value), w.pos)
  }

  /** The alternatives of `field_type` are tried in order, and the result tells which one
      produced it: a keyword tag wins over `map<K,V>`, and `map<K,V>` over a plain word. */
  lemma FieldTypeOrder(s: string, i: nat)
    requires i <= |s|
    ensures FirstTag(s, i, |TypeTags|).Some? ==>
      var k := FirstTag(s, i, |TypeTags|).value;
      FieldType(s, i) == Done(TypeTags[k].1, i + |TypeTags[k].0|)
    ensures FieldType(s, i).value.Map? ==>
      && FirstTag(s, i, |TypeTags|).None?
      && MapField(s, i) == Done((FieldType(s, i).value.key, FieldType(s, i).value.value), FieldType(s, i).pos)
    ensures FieldType(s, i).value.MessageOrEnum? ==>
      && FirstTag(s, i, |TypeTags|).None? && MapField(s, i).Error?
      && Word(s, i) == Done(FieldType(s, i).value.name, FieldType(s, i).pos)
  {
    var t := FirstTag(s, i, |TypeTags|);
    if t.Some? {
      TagKind(t.value);
    }
  }

  /** The keyword alternatives produce neither maps nor type names. */
  lemma TagKind(k: nat)
    requires k < |TypeTags|
    ensures !TypeTags[k].1.Map? && !TypeTags[k].1.MessageOrEnum?
  {
  }

  /** `map_field` (src/parser.rs:154-160): `map < K , V >` with key and value read, in that
      order, by `field_type`. No break is allowed before the closing `>`. */
  function MapField(s: string, i: nat): (r: Res<(FieldType, FieldType)>)
    requires i <= |s|
    ensures r.Done? ==> At(s, i, "map") && i < r.pos <= |s|
    decreases |s| - i, 0
  {
    var kw :- Tag(s, i, "map");
    var open :- Tag(s, Breaks(s, kw.pos), "<");
    MapOperands(s, Breaks(s, open.pos))
  }

  /** The rest of `map_field` after `<`: the key type, `,`, the value type and `>`. */
  function MapOperands(s: string, i: nat): (r: Res<(FieldType, FieldType)>)
    requires i <= |s|
    ensures r.Done? ==> i < r.pos <= |s|
    decreases |s| - i, 2
  {
    var key := FieldType(s, i);
    var comma :- Tag(s, Breaks(s, key.pos), ",");
    var value := FieldType(s, Breaks(s, comma.pos));
    var close :- Tag(s, value.pos, ">");
    Done((key.value, value.value), close.pos)
  }

  /** A name that `field_type` reads back as `MessageOrEnum(name)`: a non-empty word that starts
      with no keyword tag and is not the bare word `map`. */
  predicate TypeName(n: string) {
    && |n| > 0 && IsWord(n) && n != "map"
    && NoTagPrefix(n, 0)
  }

  /** No keyword tag from index `k` on is a prefix of `n`. */
  predicate NoTagPrefix(n: string, k: nat)
    requires k <= |TypeTags|
    decreases |TypeTags| - k
  {
    k == |TypeTags| || (!IsPrefix(TypeTags[k].0, n) && NoTagPrefix(n, k + 1))
  }

  lemma {:induction false} NoTagPrefixAt(n: string, k: nat, j: nat)
    requires k <= j < |TypeTags| && NoTagPrefix(n, k)
    ensures !IsPrefix(TypeTags[j].0, n)
    decreases j - k
  {
    if k < j {
      NoTagPrefixAt(n, k + 1, j);
    }
  }

  /** The field types written as a single token that is read back as the type itself: the
      keyword types (a `group` carrying no fields yet) and type names. */
  predicate Writable(t: FieldType) {
    if t.MessageOrEnum? then TypeName(t.name)
    else if t.Group? then t.fields == []
    else !t.Map?
  }

  /** The position of a keyword type in `TypeTags`. */
  function TagIndex(t: FieldType): (k: nat)
    requires Writable(t) && !t.MessageOrEnum?
    ensures k < |TypeTags| && TypeTags[k].1 == t
  {
    match t
    case Int32 => 0 case Int64 => 1 case Uint32 => 2 case Uint64 => 3
    case Sint32 => 4 case Sint64 => 5 case Fixed32 => 6 case Sfixed32 => 7
    case Fixed64 => 8 case Sfixed64 => 9 case Bool => 10 case String => 11
    case RefCountedString => 12 case Bytes => 13 case RefCountedBytes => 14
    case Float => 15 case Double => 16 case Group(_) => 17
  }

  /** How a field type is written in a `.proto` file. */
  function TypeText(t: FieldType): (w: string)
    requires Writable(t)
    ensures |w| > 0
  {
    if t.MessageOrEnum? then t.name else TypeTags[TagIndex(t)].0
  }

  /** No keyword tag is a prefix of a keyword tried after it, so each keyword is classified as
      itself when it stands alone. */
  lemma TagsInOrder(k: nat, j: nat)
    requires j < k < |TypeTags|
    ensures !IsPrefix(TypeTags[j].0, TypeTags[k].0)
  {
    // every pair of tags differs at one of these positions, within the shorter tag
    var q, p := TypeTags[j].0, TypeTags[k].0;
    if |q| <= |p| {
      var r := p[..|q|];
      assert r[0] == p[0] && r[1] == p[1] && r[3] == p[3];
      if |q| > 4 { assert r[4] == p[4]; }
      if |q| > 5 { assert r[5] == p[5]; }
      if |q| > 6 { assert r[6] == p[6]; }
    }
  }

  /** A keyword type written at the cursor and followed by a non-word character is read as that
      type, and the cursor moves past the keyword. */
  lemma KeywordTypeReads(s: string, i: nat, k: nat)
    requires k < |TypeTags| && At(s, i, TypeTags[k].0)
    requires i + |TypeTags[k].0| == |s| || !IsWordChar(s[i + |TypeTags[k].0|])
    ensures FirstTag(s, i, |TypeTags|) == Some(k)
  {
    var p := TypeTags[k].0;
    forall j | 0 <= j < k ensures !At(s, i, TypeTags[j].0) {
      var q := TypeTags[j].0;
      if |q| <= |p| {
        AtShorter(s, i, p, q);
        TagsInOrder(k, j);
      } else {
        AtLonger(s, i, p, q);
        TagShape(j);
      }
    }
    FirstTagSome(s, i, |TypeTags|, k);
  }

  /** Every keyword tag is a non-empty word that does not start with `m`. */
  lemma TagShape(j: nat)
    requires j < |TypeTags|
    ensures IsWord(TypeTags[j].0) && |TypeTags[j].0| > 0 && TypeTags[j].0[0] != 'm'
  {
  }

  /** The type round trip: a keyword type or a type name, written at the cursor and followed by
      the end of the input or a character that cannot continue a word, is read back by
      `field_type` as itself. */
  lemma FieldTypeReads(s: string, i: nat, t: FieldType)
    requires Writable(t) && At(s, i, TypeText(t))
    requires i + |TypeText(t)| == |s| || !IsWordChar(s[i + |TypeText(t)|])
    ensures FieldType(s, i) == Done(t, i + |TypeText(t)|)
  {
    if t.MessageOrEnum? {
      NameTypeReads(s, i, t.name);
    } else {
      TagTypeReads(s, i, TagIndex(t));
    }
  }

  lemma NameTypeReads(s: string, i: nat, n: string)
    requires TypeName(n) && At(s, i, n)
    requires i + |n| == |s| || !IsWordChar(s[i + |n|])
    ensures FieldType(s, i) == Done(MessageOrEnum(n), i + |n|)
  {
    NoTagBeforeName(s, i, n);
    NoMapBeforeName(s, i, n);
    WordAt(s, i, n);
    FieldTypeFromName(s, i, n);
  }

  lemma TagTypeReads(s: string, i: nat, k: nat)
    requires k < |TypeTags| && At(s, i, TypeTags[k].0)
    requires i + |TypeTags[k].0| == |s| || !IsWordChar(s[i + |TypeTags[k].0|])
    ensures FieldType(s, i) == Done(TypeTags[k].1, i + |TypeTags[k].0|)
  {
    KeywordTypeReads(s, i, k);
    FieldTypeFromTag(s, i, k);
  }

  lemma FieldTypeFromTag(s: string, i: nat, k: nat)
    requires i <= |s| && k < |TypeTags| && FirstTag(s, i, |TypeTags|) == Some(k)
    ensures FieldType(s, i) == Done(TypeTags[k].1, i + |TypeTags[k].0|)
  {
  }

  lemma FieldTypeFromMap(s: string, i: nat, k: FieldType, v: FieldType, pos: nat)
    requires i <= |s| && FirstTag(s, i, |TypeTags|).None? && MapField(s, i) == Done((k, v), pos)
    ensures FieldType(s, i) == Done(Map(k, v), pos)
  {
  }

  lemma FieldTypeFromName(s: string, i: nat, n: string)
    requires i <= |s| && FirstTag(s, i, |TypeTags|).None? && MapField(s, i).Error?
    requires Word(s, i) == Done(n, i + |n|)
    ensures FieldType(s, i) == Done(MessageOrEnum(n), i + |n|)
  {
  }

  lemma NoTagBeforeName(s: string, i: nat, n: string)
    requires TypeName(n) && At(s, i, n)
    requires i + |n| == |s| || !IsWordChar(s[i + |n|])
    ensures FirstTag(s, i, |TypeTags|).None?
  {
    forall j | 0 <= j < |TypeTags| ensures !At(s, i, TypeTags[j].0) {
      var q := TypeTags[j].0;
      if |q| <= |n| {
        AtShorter(s, i, n, q);
        NoTagPrefixAt(n, 0, j);
      } else {
        AtLonger(s, i, n, q);
        TagShape(j);
      }
    }
    FirstTagNone(s, i, |TypeTags|);
  }

  lemma NoMapBeforeName(s: string, i: nat, n: string)
    requires IsWord(n) && n != "map" && At(s, i, n)
    requires i + |n| == |s| || !IsWordChar(s[i + |n|])
    ensures MapField(s, i).Error?
  {
    if |n| > 3 {
      AtChar(s, i, n, 3);
      MapNeedsAngle(s, i);
    } else if |n| == 3 {
      AtShorter(s, i, n, "map");
    } else {
      AtLonger(s, i, n, "map");
    }
  }

  /** `map` followed by a word character is not a map type. */
  lemma MapNeedsAngle(s: string, i: nat)
    requires i + 3 < |s| && IsWordChar(s[i + 3])
    ensures MapField(s, i).Error?
  {
    AtSingle(s, i + 3, '<');
    MapFieldStops(s, i);
  }

  lemma MapFieldStops(s: string, i: nat)
    requires i + 3 <= |s| && Breaks(s, i + 3) == i + 3 && !At(s, i + 3, "<")
    ensures MapField(s, i).Error?
  {
  }

  /** No keyword type starts with `m`. */
  lemma NoTagBeforeMap(s: string, i: nat)
    requires i < |s| && s[i] == 'm'
    ensures FirstTag(s, i, |TypeTags|).None?
  {
    forall j | 0 <= j < |TypeTags| ensures !At(s, i, TypeTags[j].0) {
      AtLonger(s, i, [], TypeTags[j].0);
      TagShape(j);
    }
    FirstTagNone(s, i, |TypeTags|);
  }

  /** `map<K,V>` is read as `Map(K, V)`, where `K` is whatever `field_type` reads after the `<`
      (at `a`) and `V` whatever it reads after the comma (at `c`): both operands are parsed
      recursively, key first. Breaks may stand after `map`, after `<` and on both sides of the
      comma, but not before the `>` at `p2`. */
  lemma MapFromOperands(s: string, i: nat, a: nat, k: FieldType, p1: nat, c: nat, v: FieldType, p2: nat)
    requires At(s, i, "map") && a == Breaks(s, i + 3) && a < |s| && s[a] == '<'
    requires FieldType(s, Breaks(s, a + 1)) == Done(k, p1)
    requires c == Breaks(s, p1) && c < |s| && s[c] == ','
    requires FieldType(s, Breaks(s, c + 1)) == Done(v, p2) && p2 < |s| && s[p2] == '>'
    ensures FieldType(s, i) == Done(Map(k, v), p2 + 1)
  {
    AtChar(s, i, "map", 0);
    NoTagBeforeMap(s, i);
    MapFieldReads(s, i, a, k, p1, c, v, p2);
    FieldTypeFromMap(s, i, k, v, p2 + 1);
  }

  lemma MapFieldReads(s: string, i: nat, a: nat, k: FieldType, p1: nat, c: nat, v: FieldType, p2: nat)
    requires At(s, i, "map") && a == Breaks(s, i + 3) && a < |s| && s[a] == '<'
    requires FieldType(s, Breaks(s, a + 1)) == Done(k, p1)
    requires c == Breaks(s, p1) && c < |s| && s[c] == ','
    requires FieldType(s, Breaks(s, c + 1)) == Done(v, p2) && p2 < |s| && s[p2] == '>'
    ensures MapField(s, i) == Done((k, v), p2 + 1)
  {
    MapPunctuation(s, a, c, p2);
    MapOpens(s, i, a, Breaks(s, a + 1));
    MapOperandsFromParts(s, Breaks(s, a + 1), k, p1, c, v, p2);
  }

  lemma MapPunctuation(s: string, a: nat, c: nat, p2: nat)
    requires a < |s| && s[a] == '<' && c < |s| && s[c] == ',' && p2 < |s| && s[p2] == '>'
    ensures Tag(s, a, "<") == Done((), a + 1)
    ensures Tag(s, c, ",") == Done((), c + 1)
    ensures Tag(s, p2, ">") == Done((), p2 + 1)
  {
    AtSingle(s, a, '<');
    AtSingle(s, c, ',');
    AtSingle(s, p2, '>');
  }

  lemma MapOpens(s: string, i: nat, a: nat, o: nat)
    requires i + 3 <= |s| && Tag(s, i, "map") == Done((), i + 3)
    requires Breaks(s, i + 3) == a && a < |s| && Tag(s, a, "<") == Done((), a + 1)
    requires Breaks(s, a + 1) == o
    ensures MapField(s, i) == MapOperands(s, o)
  {
  }

  lemma MapOperandsFromParts(s: string, o: nat, k: FieldType, p1: nat, c: nat, v: FieldType, p2: nat)
    requires o <= |s| && FieldType(s, o) == Done(k, p1)
    requires c == Breaks(s, p1) && c < |s| && Tag(s, c, ",") == Done((), c + 1)
    requires FieldType(s, Breaks(s, c + 1)) == Done(v, p2) && Tag(s, p2, ">") == Done((), p2 + 1)
    ensures MapOperands(s, o) == Done((k, v), p2 + 1)
  {
  }

  /** The map type of src/parser.rs:476, with a blank after the comma, followed by a name. */
  const MapSample: string := "map<string, int32> x"

  /** The sample is read as a map from `string` to `int32`. */
  lemma MapWithBlankReads()
    ensures FieldType(MapSample, 0) == Done(Map(String, Int32), 18)
  {
    MapSampleKey();
    MapSampleValue();
    MapSampleBreaks();
    MapFromOperands(MapSample, 0, 3, String, 10, 10, Int32, 17);
  }

  lemma MapSampleKey()
    ensures FieldType(MapSample, 4) == Done(String, 10)
  {
    var s := MapSample;
    assert s[4..10] == TypeTags[11].0;
    TagTypeReads(s, 4, 11);
  }

  lemma MapSampleValue()
    ensures FieldType(MapSample, 12) == Done(Int32, 17)
  {
    var s := MapSample;
    assert s[12..17] == TypeTags[0].0;
    TagTypeReads(s, 12, 0);
  }

  lemma MapSampleBreaks()
    ensures Breaks(MapSample, 3) == 3 && Breaks(MapSample, 4) == 4
    ensures Breaks(MapSample, 10) == 10 && Breaks(MapSample, 11) == 12
    ensures At(MapSample, 0, "map") && MapSample[3] == '<' && MapSample[10] == ',' && MapSample[17] == '>'
  {
    var s := MapSample;
    assert |s| == 20 && s[3] == '<' && s[4] == 's' && s[10] == ',' && s[11] == ' ' && s[12] == 'i';
    assert Solid(s, 3) && Solid(s, 4) && Solid(s, 10) && Solid(s, 12);
    BreaksOverBlank(s, 11);
    assert s[0..3] == "map";
  }

  /** The attribute list of the test at src/parser.rs:537-545, up to the field's `;`. */
  const AttributeSample: string := "[default = 17];"

  /** The sample reads as the one pair `default` = `17`, and stops at the `;`. */
  lemma AttributeSampleReads(s: string)
    requires s == AttributeSample
    ensures KeyVals(s, 0) == Done([("default", "17")], 14)
  {
    AttributeSampleKey(s);
    AttributeSampleValue(s);
    OnePairStatement(s, "default", 9, "17", 14);
  }

  /** `[key = value]`, with the `=` at `q` and the value ending at `e` before a `;`, is the whole
      attribute list. */
  lemma OnePairStatement(s: string, key: string, q: nat, value: string, e: nat)
    requires 0 < |s| && s[0] == '[' && Word(s, Breaks(s, 0 + 1)).value == key
    requires Breaks(s, Word(s, Breaks(s, 0 + 1)).pos) == q && q < |s| && s[q] == '='
    requires BracketValue(s, q) == Done(value, e) && e < |s| && s[e] == ';'
    ensures KeyVals(s, 0) == Done([(key, value)], e)
  {
    PairFromParts(s, 0, key, q, value, e);
    AtSingle(s, e, '[');
    OnlyPair(s, 0, (key, value), e);
  }

  lemma AttributeSampleKey(s: string)
    requires s == AttributeSample
    ensures |s| == 15 && s[0] == '[' && Word(s, Breaks(s, 0 + 1)) == Done("default", 8)
    ensures Breaks(s, 8) == 9 && s[9] == '='
  {
    assert s[0] == '[' && s[1] == 'd' && s[8] == ' ' && s[9] == '=';
    assert Solid(s, 1) && Solid(s, 9);
    assert s[1..8] == "default";
    WordAt(s, 1, "default");
    BreaksOverBlank(s, 8);
  }

  lemma AttributeSampleValue(s: string)
    requires s == AttributeSample
    ensures |s| == 15 && BracketValue(s, 9) == Done("17", 14) && s[14] == ';'
  {
    assert s[10] == ' ' && s[11] == '1' && s[12] == '7' && s[13] == ']' && s[14] == ';';
    assert Solid(s, 11);
    BreaksOverBlank(s, 10);
    assert !At(s, 11, "]") && !At(s, 12, "]") && At(s, 13, "]");
    FindAt(s, 11, "]", 13);
    assert s[11..13] == "17";
    TrimKeeps("17");
  }

  /** A `[`, a key, breaks, the `=` at `q`, and a value ending at `e`, where a `;` follows. */
  lemma PairFromParts(s: string, i: nat, key: string, q: nat, value: string, e: nat)
    requires i < |s| && s[i] == '[' && Word(s, Breaks(s, i + 1)).value == key
    requires Breaks(s, Word(s, Breaks(s, i + 1)).pos) == q && q < |s| && s[q] == '='
    requires BracketValue(s, q) == Done(value, e) && e < |s| && s[e] == ';'
    ensures KeyVal(s, i) == Done((key, value), e)
  {
    AtSingle(s, i, '[');
    AtSingle(s, q, '=');
  }

  /** A pair with no `[` after it is the whole attribute list. */
  lemma OnlyPair(s: string, p: nat, kv: (string, string), q: nat)
    requires p <= |s| && KeyVal(s, p) == Done(kv, q) && !At(s, q, "[")
    ensures KeyVals(s, p) == Done([kv], q)
  {
    assert KeyVals(s, q) == Done([], q);
    assert [kv][1..] == [];
    KeyValsStep(s, p, [kv], q, q);
  }

  lemma TypeTextSolid(t: FieldType)
    requires Writable(t)
    ensures IsWordChar(TypeText(t)[0])
  {
    if !t.MessageOrEnum? {
      TagShape(TagIndex(t));
    }
  }

  /** `group_fields_or_semicolon` (src/parser.rs:183-188): `;`, or a brace-enclosed field list. */
  function GroupFieldsOrSemicolon(s: string, i: nat): (r: Res<Option<seq<Field>>>)
    requires i <= |s|
    ensures r.Done? ==> i < r.pos <= |s|
    ensures r.Done? ==> (At(s, i, ";") && r == Done(None, i + 1)) || (At(s, i, "{") && r.value.Some?)
    ensures !At(s, i, ";") ==> (r.Done? <==> FieldsInBraces(s, i).Done?)
    ensures !At(s, i, ";") && r.Done? ==> r == Done(Some(FieldsInBraces(s, i).value), FieldsInBraces(s, i).pos)
    decreases |s| - i, 1
  {
    if At(s, i, ";") then Done(None, i + 1)
    else
      var body :- FieldsInBraces(s, i);
      Done(Some(body.value), body.pos)
  }

  /** `fields_in_braces` (src/parser.rs:162-169): `{`, fields separated by single breaks, `}`. */
  function FieldsInBraces(s: string, i: nat): (r: Res<seq<Field>>)
    requires i <= |s|
    ensures r.Done? ==> At(s, i, "{") && i < r.pos <= |s|
    ensures r.Done? ==> r.value == FieldList(s, Breaks(s, i + 1)).value
    ensures r.Done? ==> r.pos == Breaks(s, FieldList(s, Breaks(s, i + 1)).pos) + 1
    ensures r.Done? ==> At(s, Breaks(s, FieldList(s, Breaks(s, i + 1)).pos), "}")
    ensures At(s, i, "{") && At(s, Breaks(s, FieldList(s, Breaks(s, i + 1)).pos), "}") ==> r.Done?
    decreases |s| - i, 0
  {
    var open :- Tag(s, i, "{");
    var list := FieldList(s, Breaks(s, open.pos));
    var close :- Tag(s, Breaks(s, list.pos), "}");
    Done(list.value, close.pos)
  }

  /** `separated_list!(br, message_field)`: no field at all, or a field followed by more. */
  function FieldList(s: string, i: nat): (r: Res<seq<Field>>)
    requires i <= |s|
    ensures r.Done? && i <= r.pos <= |s|
    ensures MessageField(s, i).Error? ==> r == Done([], i)
    ensures MessageField(s, i).Done? ==> |r.value| > 0 && r.value[0] == MessageField(s, i).value
    decreases |s| - i, 2
  {
    match MessageField(s, i)
    case Error => Done([], i)
    case Done(f, j) =>
      var more := MoreFields(s, j);
      Done([f] + more.value, more.pos)
  }

  /** The rest of a separated list: a break and a field, repeatedly; a break that is not followed
      by a field is left unconsumed. */
  function MoreFields(s: string, i: nat): (r: Res<seq<Field>>)
    requires i <= |s|
    ensures r.Done? && i <= r.pos <= |s|
    ensures Br(s, i).Error? ==> r == Done([], i)
    ensures Br(s, i).Done? && MessageField(s, Br(s, i).pos).Error? ==> r == Done([], i)
    ensures Br(s, i).Done? && MessageField(s, Br(s, i).pos).Done? ==>
      |r.value| > 0 && r.value[0] == MessageField(s, Br(s, i).pos).value
    decreases |s| - i, 0
  {
    var sep := Br(s, i);
    if sep.Error? then Done([], i)
    else
      match MessageField(s, sep.pos)
      case Error => Done([], i)
      case Done(f, j) =>
        var more := MoreFields(s, j);
        Done([f] + more.value, more.pos)
  }

  /** One more turn of the separated list: a break up to `p` and a field read from `p` to `e` go
      in front of what is read from `e` on. */
  lemma MoreFieldsStep(s: string, j: nat, p: nat, f: Field, e: nat)
    requires j <= |s| && Br(s, j) == Done((), p) && MessageField(s, p) == Done(f, e)
    ensures MoreFields(s, j) == Done([f] + MoreFields(s, e).value, MoreFields(s, e).pos)
  {
  }

  /** The fields `fs` are written one after another from `p`, one break between neighbours, and
      the last of them ends at `e`. */
  predicate FieldsAt(s: string, p: nat, fs: seq<Field>, e: nat)
    decreases |fs|
  {
    && p <= |s| && |fs| > 0
    && MessageField(s, p).Done? && MessageField(s, p).value == fs[0]
    && var q := MessageField(s, p).pos;
       if |fs| == 1 then q == e
       else Br(s, q).Done? && FieldsAt(s, Br(s, q).pos, fs[1..], e)
  }

  /** Where the list stops: no break, or a break not followed by a field. */
  predicate FieldsStop(s: string, e: nat) {
    e <= |s| && (Br(s, e).Error? || MessageField(s, Br(s, e).pos).Error?)
  }

  lemma FieldsEnd(s: string, e: nat)
    requires FieldsStop(s, e)
    ensures MoreFields(s, e) == Done([], e)
  {
  }

  /** After a break, the rest of the list reads the fields written there, in order. */
  lemma {:induction false} MoreFieldsReads(s: string, j: nat, fs: seq<Field>, e: nat)
    requires j <= |s| && Br(s, j).Done? && FieldsAt(s, Br(s, j).pos, fs, e) && FieldsStop(s, e)
    ensures MoreFields(s, j) == Done(fs, e)
    decreases |fs|
  {
    MoreFieldsFirst(s, j, fs, e);
    FieldsAfterFirst(s, Br(s, j).pos, fs, e);
    assert [fs[0]] + fs[1..] == fs;
  }

  lemma MoreFieldsFirst(s: string, j: nat, fs: seq<Field>, e: nat)
    requires j <= |s| && Br(s, j).Done? && FieldsAt(s, Br(s, j).pos, fs, e)
    ensures MessageField(s, Br(s, j).pos).Done?
    ensures var q := MessageField(s, Br(s, j).pos).pos;
      MoreFields(s, j) == Done([fs[0]] + MoreFields(s, q).value, MoreFields(s, q).pos)
  {
    var p := Br(s, j).pos;
    MoreFieldsStep(s, j, p, fs[0], MessageField(s, p).pos);
  }

  /** What the list reads after the first of the fields written from `p`: the others. */
  lemma {:induction false} FieldsAfterFirst(s: string, p: nat, fs: seq<Field>, e: nat)
    requires FieldsAt(s, p, fs, e) && FieldsStop(s, e)
    ensures MoreFields(s, MessageField(s, p).pos) == Done(fs[1..], e)
    decreases |fs|, 0
  {
    var q := MessageField(s, p).pos;
    if |fs| == 1 {
      FieldsEnd(s, q);
      assert fs[1..] == [];
    } else {
      MoreFieldsReads(s, q, fs[1..], e);
    }
  }

  lemma FieldListStep(s: string, p: nat, f: Field, q: nat)
    requires p <= |s| && MessageField(s, p) == Done(f, q)
    ensures FieldList(s, p) == Done([f] + MoreFields(s, q).value, MoreFields(s, q).pos)
  {
  }

  /** `separated_list!(br, message_field)` reads the fields written one break apart, in order,
      up to the first place where no break followed by a field comes next. */
  lemma FieldsInOrder(s: string, p: nat, fs: seq<Field>, e: nat)
    requires FieldsAt(s, p, fs, e) && FieldsStop(s, e)
    ensures FieldList(s, p) == Done(fs, e)
  {
    FieldListStep(s, p, fs[0], MessageField(s, p).pos);
    FieldsAfterFirst(s, p, fs, e);
    assert [fs[0]] + fs[1..] == fs;
  }

  /** `message_field` (src/parser.rs:190-226): an optional rule, the type, the name, `=`, the
      number, bracketed attributes, then `;` or a brace body. */
  function MessageField(s: string, i: nat): (r: Res<Field>)
    requires i <= |s|
    ensures r.Done? ==> i < r.pos <= |s|
    decreases |s| - i, 1
  {
    var rule := Rule(s, i);
    FieldAfterRule(s, i, if rule.Done? then Some(rule.value) else None, Breaks(s, if rule.Done? then rule.pos else i))
  }

  /** The rest of `message_field` (src/parser.rs:193-226), once the rule `declared` (if any) and
      the breaks after it are read up to `p`: the type, the name and number, the attributes and
      the body, put together by `AssembleField`. */
  function FieldAfterRule(s: string, i: nat, declared: Option<Rule>, p: nat): (r: Res<Field>)
    requires i <= p <= |s|
    ensures r.Done? ==> p < r.pos <= |s|
    decreases |s| - i, 0
  {
    var typ := FieldType(s, p);
    var head :- FieldHead(s, typ.pos);
    var attrs := KeyVals(s, Breaks(s, head.pos));
    var body :- GroupFieldsOrSemicolon(s, Breaks(s, attrs.pos));
    match AssembleField(declared, typ.value, head.value.0, head.value.1, attrs.value, body.value)
    case Some(f) => Done(f, body.pos)
    case None => Error
  }

  /** The part of `message_field` between the type and the attributes (src/parser.rs:193-194):
      at least one break, the name, breaks, `=`, breaks and the number. */
  function FieldHead(s: string, p: nat): (r: Res<(string, i32)>)
    requires p <= |s|
    ensures r.Done? ==> p < r.pos <= |s|
  {
    var gap :- Breaks1(s, p);
    NameAndNumber(s, gap.pos)
  }

  /** The name, breaks, `=`, breaks and the number. */
  function NameAndNumber(s: string, p: nat): (r: Res<(string, i32)>)
    requires p <= |s|
    ensures r.Done? ==> p < r.pos <= |s|
  {
    var name := Word(s, p);
    var number :- NumberAfterName(s, Breaks(s, name.pos));
    Done((name.value, number.value), number.pos)
  }

  /** `=`, breaks and the number. */
  function NumberAfterName(s: string, q: nat): (r: Res<i32>)
    requires q <= |s|
    ensures r.Done? ==> q < r.pos <= |s|
  {
    var _ :- Tag(s, q, "=");
    Integer(s, Breaks(s, q + 1))
  }

  /** `=` at `q`, then breaks and the number `n` ending at `ip`. */
  lemma NumberAfterNameParts(s: string, q: nat, n: i32, ip: nat)
    requires q <= |s| && At(s, q, "=") && Integer(s, Breaks(s, q + 1)) == Done(n, ip)
    ensures NumberAfterName(s, q) == Done(n, ip)
  {
    var eq := Tag(s, q, "=");
    assert eq == Done((), q + 1);
  }

  /** The name `name` up to `np`, then breaks and the number `n` after the `=`, ending at `ip`. */
  lemma NameAndNumberParts(s: string, p: nat, name: string, np: nat, n: i32, ip: nat)
    requires p <= |s| && Word(s, p) == Done(name, np)
    requires np <= |s| && NumberAfterName(s, Breaks(s, np)) == Done(n, ip)
    ensures NameAndNumber(s, p) == Done((name, n), ip)
  {
  }

  /** After one or more breaks ending at `g`, the head reads what the name and number read from `g`. */
  lemma FieldHeadParts(s: string, p: nat, g: nat)
    requires p <= |s| && Breaks1(s, p) == Done((), g) && g <= |s|
    ensures FieldHead(s, p) == NameAndNumber(s, g)
  {
  }

  /** The rest of a field read from its parts, from the type on. */
  lemma FieldAfterRuleParts(s: string, i: nat, declared: Option<Rule>, p: nat, typ: FieldType, tp: nat,
                            name: string, n: i32, ip: nat, kvs: seq<(string, string)>, ap: nat,
                            body: Option<seq<Field>>, e: nat)
    requires i <= p <= |s| && FieldType(s, p) == Done(typ, tp)
    requires tp <= |s| && FieldHead(s, tp) == Done((name, n), ip)
    requires ip <= |s| && KeyVals(s, Breaks(s, ip)) == Done(kvs, ap)
    requires ap <= |s| && GroupFieldsOrSemicolon(s, Breaks(s, ap)) == Done(body, e)
    requires AssembleField(declared, typ, name, n, kvs, body).Some?
    ensures FieldAfterRule(s, i, declared, p) == Done(AssembleField(declared, typ, name, n, kvs, body).value, e)
  {
  }

  /** A field read from its parts: the type `typ` after the optional rule at `i` and its breaks;
      the head (breaks, the name `name`, `=` and the number `n`) ending at `ip`; the attributes
      `kvs` after the head and its breaks; then `;` or a brace body ending at `e`. The field is
      `AssembleField` of these parts, so it has the name, number and rule written there and the
      `default` attribute among its pairs, a `group` takes the fields of its body, and the parse
      resumes at `e`. */
  lemma MessageFieldParts(s: string, i: nat, typ: FieldType, tp: nat, name: string, n: i32, ip: nat,
                          kvs: seq<(string, string)>, ap: nat, body: Option<seq<Field>>, e: nat)
    requires i <= |s|
    requires FieldType(s, Breaks(s, if Rule(s, i).Done? then Rule(s, i).pos else i)) == Done(typ, tp)
    requires tp <= |s| && FieldHead(s, tp) == Done((name, n), ip)
    requires ip <= |s| && KeyVals(s, Breaks(s, ip)) == Done(kvs, ap)
    requires ap <= |s| && GroupFieldsOrSemicolon(s, Breaks(s, ap)) == Done(body, e)
    requires AssembleField(if Rule(s, i).Done? then Some(Rule(s, i).value) else None,
                           typ, name, n, kvs, body).Some?
    ensures var f := AssembleField(if Rule(s, i).Done? then Some(Rule(s, i).value) else None,
                                   typ, name, n, kvs, body).value;
      && MessageField(s, i) == Done(f, e)
      && f.name == name && f.number == n
      && f.rule == (if Rule(s, i).Done? then Rule(s, i).value else Optional)
      && f.defaultValue == Lookup(kvs, "default")
      && f.typ == (if typ.Group? && body.Some? then Group(body.value) else typ)
  {
    var declared := if Rule(s, i).Done? then Some(Rule(s, i).value) else None;
    FieldAfterRuleParts(s, i, declared, Breaks(s, if Rule(s, i).Done? then Rule(s, i).pos else i),
                        typ, tp, name, n, ip, kvs, ap, body, e);
  }

  /** The pair at `k` is the first one whose key is `key`. */
  predicate FirstBinding(kvs: seq<(string, string)>, key: string, k: int) {
    0 <= k < |kvs| && kvs[k].0 == key && forall j | 0 <= j < k :: kvs[j].0 != key
  }

  /** `key_vals.iter().find(|(k, _)| k == key)`: the value of the first pair with this key. */
  function Lookup(kvs: seq<(string, string)>, key: string): (r: Option<string>)
    ensures r.None? <==> forall k | 0 <= k < |kvs| :: kvs[k].0 != key
    ensures r.Some? ==> exists k :: FirstBinding(kvs, key, k) && kvs[k].1 == r.value
  {
    if kvs == [] then None
    else if kvs[0].0 == key then
      assert FirstBinding(kvs, key, 0);
      Some(kvs[0].1)
    else
      var r := Lookup(kvs[1..], key);
      if r.Some? then
        var k :| FirstBinding(kvs[1..], key, k) && kvs[1..][k].1 == r.value;
        assert FirstBinding(kvs, key, k + 1);
        r
      else
        r
  }

  /** Rust's `bool::from_str`: exactly `true` or `false`. */
  function ParseBool(t: string): (r: Option<bool>)
    ensures r == Some(true) <==> t == "true"
    ensures r == Some(false) <==> t == "false"
  {
    if t == "true" then Some(true) else if t == "false" then Some(false) else None
  }

  /** The record built at src/parser.rs:196-224. A `group` type that has a brace body takes that
      body as its fields; any other type keeps itself and the body is dropped. A `packed` or
      `deprecated` value that is not a boolean literal aborts the source with a panic; here the
      field does not parse. */
  function AssembleField(rule: Option<Rule>, typ: FieldType, name: string, number: i32,
                         kvs: seq<(string, string)>, body: Option<seq<Field>>): (r: Option<Field>)
    ensures r.Some? <==>
      && (Lookup(kvs, "packed").Some? ==> ParseBool(Lookup(kvs, "packed").value).Some?)
      && (Lookup(kvs, "deprecated").Some? ==> ParseBool(Lookup(kvs, "deprecated").value).Some?)
    ensures r.Some? ==> r.value.name == name && r.value.number == number
    ensures r.Some? ==> r.value.defaultValue == Lookup(kvs, "default")
    ensures r.Some? ==> (r.value.packed == None <==> Lookup(kvs, "packed") == None)
    ensures r.Some? ==> (r.value.packed == Some(true) <==> Lookup(kvs, "packed") == Some("true"))
    ensures r.Some? ==> (r.value.deprecated <==> Lookup(kvs, "deprecated") == Some("true"))
    ensures r.Some? ==> (rule.None? ==> r.value.rule == Optional) && (rule.Some? ==> r.value.rule == rule.value)
    ensures r.Some? && typ.Group? && body.Some? ==> r.value.typ == Group(body.value)
    ensures r.Some? && (!typ.Group? || body.None?) ==> r.value.typ == typ
  {
    var packed := Lookup(kvs, "packed");
    var deprecated := Lookup(kvs, "deprecated");
    if packed.Some? && ParseBool(packed.value).None? then None
    else if deprecated.Some? && ParseBool(deprecated.value).None? then None
    else
      var t := match (typ, body) {
        case (Group(_), Some(fields)) => Group(fields)
        case (_, _) => typ
      };
      Some(Field(
        name := name,
        rule := rule.GetOr(Optional),
        typ := t,
        number := number,
        defaultValue := Lookup(kvs, "default"),
        packed := if packed.Some? then ParseBool(packed.value) else None,
        deprecated := deprecated.Some? && ParseBool(deprecated.value) == Some(true)))
  }

}
