/** QvEnumMap: a map keyed by an enumeration, as a JSON object whose keys are "$" and the number. */
module EnumMaps {
  import opened Decimal
  import opened NamedMaps

  const INT_MIN := -0x8000_0000
  const INT_MAX := 0x7FFF_FFFF

  /** The values an enumeration key can have. */
  type Key = k: int | INT_MIN <= k <= INT_MAX

  /** QString::number */
  function Number(k: int): string {
    if k < 0 then "-" + ToDecimal(-k) else ToDecimal(k)
  }

  function InRange(n: int): Key {
    if INT_MIN <= n <= INT_MAX then n else 0
  }

  /** QChar::isSpace */
  predicate IsSpace(c: char) {
    || c == ' ' || '\t' <= c <= '\r' || c == '\U{85}' || c == '\U{A0}' || c == '\U{1680}'
    || '\U{2000}' <= c <= '\U{200A}' || c == '\U{2028}' || c == '\U{2029}' || c == '\U{202F}'
    || c == '\U{205F}' || c == '\U{3000}'
  }

  /** By their codes. */
  lemma Spaces(c: char)
    ensures IsSpace(c) <==>
            var n := c as int;
            n in {32, 133, 160, 5760, 8232, 8233, 8239, 8287, 12288} || 9 <= n <= 13 || 8192 <= n <= 8202
  {
  }

  function WithoutLeading(s: string): string {
    if s != "" && IsSpace(s[0]) then WithoutLeading(s[1..]) else s
  }

  function WithoutTrailing(s: string): string {
    if s != "" && IsSpace(s[|s| - 1]) then WithoutTrailing(s[..|s| - 1]) else s
  }

  /** QString::toInt: blanks around the number do not matter. */
  function ToInt(s: string): Key {
    SignedInt(WithoutTrailing(WithoutLeading(s)))
  }

  /** A decimal with an optional sign, and zero for anything else. */
  function SignedInt(s: string): Key {
    if s != "" && AllDigits(s) then InRange(OfDecimal(s))
    else if |s| > 1 && s[0] in {'-', '+'} && AllDigits(s[1..]) then
      var n: int := OfDecimal(s[1..]);
      InRange(if s[0] == '-' then -n else n)
    else 0
  }

  const PREFIX := '$'

  function KeyText(k: Key): string {
    [PREFIX] + Number(k)
  }

  /** QString::remove: every occurrence goes. */
  function Without(s: string, c: char): string {
    if s == "" then "" else (if s[0] == c then "" else [s[0]]) + Without(s[1..], c)
  }

  /** Every c goes, */
  lemma {:induction false} WithoutAny(s: string, c: char)
    ensures c !in Without(s, c)
  {
    if s == "" {
    } else {
      WithoutAny(s[1..], c);
    }
  }

  lemma WithoutFirst(s: string, c: char)
    requires s != ""
    ensures s[0] == c ==> Without(s, c) == Without(s[1..], c)
    ensures s[0] != c ==> Without(s, c) == [s[0]] + Without(s[1..], c)
  {
    assert "" + Without(s[1..], c) == Without(s[1..], c);
  }

  lemma Regrouped(d: char, x: string, y: string)
    ensures ([d] + x) + y == [d] + (x + y)
  {
  }

  /** and wherever it stands. */
  lemma {:induction false} WithoutConcat(s: string, t: string, c: char)
    ensures Without(s + t, c) == Without(s, c) + Without(t, c)
  {
    if s == "" {
      assert s + t == t && Without(s, c) + Without(t, c) == Without(t, c);
    } else {
      WithoutConcat(s[1..], t, c);
      WithoutFirst(s, c);
      WithoutFirst(s + t, c);
      assert (s + t)[1..] == s[1..] + t;
      Regrouped(s[0], Without(s[1..], c), Without(t, c));
    }
  }

  lemma {:induction false} WithoutAbsent(s: string, c: char)
    requires c !in s
    ensures Without(s, c) == s
  {
    if s == "" {
    } else {
      WithoutAbsent(s[1..], c);
      assert s == [s[0]] + s[1..];
    }
  }

  /** What toInt reads: the value of a number in range, without a sign */
  lemma ToIntOfDigits(digits: string)
    requires digits != "" && AllDigits(digits)
    ensures (ToInt(digits) as int) == if OfDecimal(digits) <= 2147483647 then OfDecimal(digits) else 0
  {
    NothingToStrip(digits);
  }

  /** or with one. */
  lemma ToIntOfSigned(sign: char, digits: string)
    requires sign in {'+', '-'} && digits != "" && AllDigits(digits)
    ensures var n: int := OfDecimal(digits);
            ToInt([sign] + digits) as int ==
            if sign == '+' && n <= 2147483647 then n else if sign == '-' && n <= 2147483648 then -n else 0
  {
    var s := [sign] + digits;
    NothingToStrip(s);
    assert s[1..] == digits && !IsDigit(s[0]);
  }

  /** Blanks around it do not matter, and anything else is zero. */
  lemma ToIntOfOthers(s: string, c: char)
    requires IsSpace(c)
    ensures ToInt([c] + s) == ToInt(s)
    ensures (&& s != "" && !IsSpace(s[0]) && !IsSpace(s[|s| - 1]) && !AllDigits(s)
             && !(|s| > 1 && s[0] in {'-', '+'} && AllDigits(s[1..])))
            ==> ToInt(s) == 0
    ensures ToInt("") == 0
  {
    assert ([c] + s)[1..] == s;
  }

  lemma {:induction false} TrailingBlank(s: string, c: char)
    requires IsSpace(c)
    ensures ToInt(s + [c]) == ToInt(s)
  {
    if s != "" && IsSpace(s[0]) {
      TrailingBlank(s[1..], c);
      assert (s + [c])[1..] == s[1..] + [c];
    } else if s == "" {
      assert s + [c] == [c] && [c][1..] == "";
    } else {
      assert WithoutLeading(s + [c]) == s + [c];
      assert (s + [c])[..|s|] == s;
    }
  }

  /** A number has no blanks to lose. */
  lemma NothingToStrip(s: string)
    requires s != "" && !IsSpace(s[0]) && !IsSpace(s[|s| - 1])
    ensures ToInt(s) == SignedInt(s)
  {
  }

  lemma NaturalReadsBack(s: string)
    requires Canonical(s) && OfDecimal(s) <= INT_MAX
    ensures (ToInt(s) as int) == OfDecimal(s)
  {
    NothingToStrip(s);
  }

  lemma NegativeReadsBack(s: string, digits: string)
    requires s == "-" + digits && Canonical(digits) && 0 < OfDecimal(digits) <= -INT_MIN
    ensures (ToInt(s) as int) == -(OfDecimal(digits) as int)
  {
    NothingToStrip(s);
    assert s[1..] == digits && !IsDigit(s[0]);
  }

  lemma NumberReadsBack(k: Key)
    ensures ToInt(Number(k)) == k && PREFIX !in Number(k)
  {
    var n: int := k;
    var size := if n < 0 then -n else n;
    SizeForm(size);
    if n < 0 {
      NegativeReadsBack(Number(k), ToDecimal(size));
    } else {
      NaturalReadsBack(Number(k));
    }
  }

  lemma SizeForm(n: nat)
    ensures Canonical(ToDecimal(n)) && OfDecimal(ToDecimal(n)) == n
  {
    OfToDecimal(n);
    ToDecimalIsCanonical(n);
  }

  lemma NegativeKeyText(k: Key)
    requires k < 0
    ensures var n: int := k; KeyText(k) == "$-" + ToDecimal(-n)
  {
  }

  /** A key's text is a dollar sign, a minus sign for a negative key, and the size of the key in
      decimal without leading zeros. */
  lemma KeyTextForm(k: Key)
    ensures var n: int := k;
            var digits := ToDecimal(if n < 0 then -n else n);
            && KeyText(k) == (if n < 0 then "$-" else "$") + digits
            && Canonical(digits) && OfDecimal(digits) == if n < 0 then -n else n
  {
    var n: int := k;
    SizeForm(if n < 0 then -n else n);
    if k < 0 {
      NegativeKeyText(k);
    }
  }

  /** The key of a text: strip the prefix and read the decimal. */
  function KeyOf(text: string): Key {
    ToInt(Without(text, PREFIX))
  }

  lemma KeyReadsBack(k: Key)
    ensures Without(KeyText(k), PREFIX) == Number(k) && KeyOf(KeyText(k)) == k
  {
    NumberReadsBack(k);
    assert KeyText(k)[1..] == Number(k);
    WithoutAbsent(Number(k), PREFIX);
  }

  /** The text the loop looks a value up under. */
  function Looked(text: string): string {
    [PREFIX] + Without(text, PREFIX)
  }

  /** Every key is recovered from its text, so no two keys collide. */
  lemma KeysReadBack()
    ensures Faithful(KeyText, KeyOf, Looked)
  {
    forall k: Key ensures KeyOf(KeyText(k)) == k && Looked(KeyText(k)) == KeyText(k) {
      KeyReadsBack(k);
    }
  }

  /** How single values go to JSON and back, and the value of a key that is missing. */
  datatype Codec<!V, !J> = Codec(encode: V -> J, decode: J -> V, default: V)

  ghost predicate RoundTrips<V(!new), J>(codec: Codec<V, J>) {
    forall v :: codec.decode(codec.encode(v)) == v
  }

  function Decoded<V, J>(codec: Codec<V, J>, json: map<string, J>): map<string, V> {
    map text | text in json :: codec.decode(json[text])
  }

  function Encoded<V, J>(codec: Codec<V, J>, data: map<string, V>): map<string, J> {
    map text | text in data :: codec.encode(data[text])
  }

  /** The map under the texts of its keys. */
  ghost function Texts<V>(m: map<Key, V>): map<string, V> {
    KeysReadBack();
    Renamed(KeyText, KeyOf, Looked, m)
  }

  /** What loadJson makes of a JSON object whose keys come in this order. */
  function Loaded<V, J>(codec: Codec<V, J>, json: map<string, J>, texts: seq<string>): map<Key, V> {
    Collected(KeyOf, Looked, codec.default, Decoded(codec, json), texts)
  }

  // ------------------------------------------------------------------ the class

  class EnumMap<V, J> {
    var entries: map<Key, V>

    constructor ()
      ensures entries == map[]
    {
      entries := map[];
    }

    /** texts is data.keys(): the keys of the JSON object in the order of the map. */
    method LoadJson(codec: Codec<V, J>, json: map<string, J>, texts: seq<string>)
      requires Enumerates(texts, json.Keys)
      modifies this
      ensures entries == Loaded(codec, json, texts)
    {
      var data := Decoded(codec, json);
      entries := map[];
      for i := 0 to |texts|
        invariant entries == Loaded(codec, json, texts[..i])
        invariant forall t :: t in Decoded(codec, json) ==> t in data && data[t] == Decoded(codec, json)[t]
        invariant forall t :: t in data && t !in json ==> data[t] == codec.default
      {
        assert texts[..i + 1][..i] == texts[..i];
        var stripped := Without(texts[i], PREFIX);
        var k := ToInt(stripped);
        var looked := [PREFIX] + stripped;
        // operator[] of the map inserts a default value under a missing key
        if looked !in data {
          data := data[looked := codec.default];
        }
        entries := entries[k := data[looked]];
      }
      assert texts[..|texts|] == texts;
    }

    static method FromJson(codec: Codec<V, J>, json: map<string, J>, texts: seq<string>) returns (t: EnumMap<V, J>)
      requires Enumerates(texts, json.Keys)
      ensures fresh(t) && t.entries == Loaded(codec, json, texts)
    {
      t := new EnumMap();
      t.LoadJson(codec, json, texts);
    }

    /** keys is this->keys(). */
    method ToJson(codec: Codec<V, J>, keys: seq<Key>) returns (json: map<string, J>)
      requires Enumerates(keys, entries.Keys)
      ensures json == Encoded(codec, Texts(entries))
    {
      var data := Written(keys);
      ListedAll(entries, keys);
      json := Encoded(codec, data);
    }

    /** The loop of toJson: every listed entry under the text of its key. */
    method Written(keys: seq<Key>) returns (data: map<string, V>)
      requires forall k :: k in keys ==> k in entries
      ensures data == Texts(Listed(entries, keys))
    {
      data := map[];
      TextsOfNone(entries, keys[..0]);
      for i := 0 to |keys|
        invariant data == Texts(Listed(entries, keys[..i]))
      {
        assert keys[i] in keys;
        TextsGrow(entries, keys, i);
        data := data[[PREFIX] + Number(keys[i]) := entries[keys[i]]];
      }
      assert keys[..|keys|] == keys;
    }
  }

  lemma TextsOfNone<V>(m: map<Key, V>, keys: seq<Key>)
    requires keys == []
    ensures Texts(Listed(m, keys)) == map[]
  {
    assert Listed(m, keys) == map[];
  }

  lemma TextsGrow<V>(m: map<Key, V>, keys: seq<Key>, i: nat)
    requires i < |keys| && keys[i] in m
    ensures Texts(Listed(m, keys[..i + 1])) == Texts(Listed(m, keys[..i]))[KeyText(keys[i]) := m[keys[i]]]
  {
    KeysReadBack();
    RenamedGrows(KeyText, KeyOf, Looked, m, keys, i);
  }

  /** The text at i is the last whose number, without dollar signs, is k. */
  ghost predicate LastKey(texts: seq<string>, k: Key, i: nat) {
    && i < |texts| && ToInt(Without(texts[i], '$')) == k
    && forall j :: i < j < |texts| ==> ToInt(Without(texts[j], '$')) != k
  }

  /** The entry of a key after loading, in full: the last text that reads as the key decides; its
      value is looked up under "$" and the text without dollar signs, and is the default if there
      is none. */
  lemma LoadedEntry<V, J>(codec: Codec<V, J>, json: map<string, J>, texts: seq<string>, k: Key)
    ensures var m := Loaded(codec, json, texts);
            && (k in m <==> exists i: nat :: LastKey(texts, k, i))
            && forall i: nat :: LastKey(texts, k, i) ==>
                 var looked := "$" + Without(texts[i], '$');
                 k in m && m[k] == if looked in json then codec.decode(json[looked]) else codec.default
  {
    CollectedEntry(KeyOf, Looked, codec.default, Decoded(codec, json), texts, k);
    forall i: nat ensures LastKey(texts, k, i) <==> LastFor(KeyOf, texts, k, i) { }
  }

  // ----------------------------------------------------------------- round trips

  /** A dollar sign and a number without leading zeros, with a minus sign only in front of a
      positive one, in the range of an enumeration. */
  predicate CanonicalKey(t: string) {
    || (|t| >= 2 && t[0] == PREFIX && Canonical(t[1..]) && OfDecimal(t[1..]) <= INT_MAX)
    || (|t| >= 3 && t[0] == PREFIX && t[1] == '-' && Canonical(t[2..]) && 0 < OfDecimal(t[2..]) <= -INT_MIN)
  }

  lemma WrittenKeyIsCanonical(k: Key)
    ensures CanonicalKey(KeyText(k))
  {
    KeyTextForm(k);
  }

  lemma PrefixIsStripped(t: string)
    requires t != "" && t[0] == PREFIX && PREFIX !in t[1..]
    ensures KeyOf(t) == ToInt(t[1..]) && t == [PREFIX] + t[1..]
  {
    WithoutAbsent(t[1..], PREFIX);
    assert Without(t, PREFIX) == "" + t[1..] == t[1..];
  }

  lemma CanonicalKeyIsWritten(t: string)
    requires CanonicalKey(t)
    ensures IsName(KeyText, KeyOf, t)
  {
    var number := t[1..];
    PrefixIsStripped(t);
    if t[1] == '-' {
      assert number == "-" + t[2..];
      NegativeReadsBack(number, t[2..]);
      ToOfDecimal(t[2..]);
    } else {
      NaturalReadsBack(number);
      ToOfDecimal(number);
    }
  }

  /** These are exactly the keys that are written as they were read. */
  lemma CanonicalKeyExactly(t: string)
    ensures CanonicalKey(t) <==> t == KeyText(KeyOf(t))
  {
    WrittenKeyIsCanonical(KeyOf(t));
    if CanonicalKey(t) {
      CanonicalKeyIsWritten(t);
    }
  }

  /** What is written is read back: every finite map, negative keys included, whatever the order
      of the keys in the JSON object. */
  lemma ReadsBackWhatWasWritten<V(!new), J>(codec: Codec<V, J>, m: map<Key, V>, texts: seq<string>)
    requires RoundTrips(codec) && Enumerates(texts, Encoded(codec, Texts(m)).Keys)
    ensures Loaded(codec, Encoded(codec, Texts(m)), texts) == m
  {
    KeysReadBack();
    DecodedEncoded(codec, Texts(m));
    CollectedRenamed(KeyText, KeyOf, Looked, codec.default, m, texts);
  }

  lemma DecodedEncoded<V(!new), J>(codec: Codec<V, J>, data: map<string, V>)
    requires RoundTrips(codec)
    ensures Decoded(codec, Encoded(codec, data)) == data && Encoded(codec, data).Keys == data.Keys
  {
  }

  /** A JSON object survives loading and writing exactly when every key is "$" and a canonical
      number in range and every value survives its own codec. */
  lemma WritesBackWhatWasRead<V, J>(codec: Codec<V, J>, json: map<string, J>, texts: seq<string>)
    requires Enumerates(texts, json.Keys)
    ensures Encoded(codec, Texts(Loaded(codec, json, texts))) == json <==>
            forall t :: t in json ==> CanonicalKey(t) && codec.encode(codec.decode(json[t])) == json[t]
  {
    var data := Decoded(codec, json);
    var m := Loaded(codec, json, texts);
    KeysReadBack();
    RenamedAreNames(KeyText, KeyOf, Looked, m);
    forall t ensures CanonicalKey(t) <==> IsName(KeyText, KeyOf, t) {
      CanonicalKeyExactly(t);
    }
    if forall t :: t in json ==> CanonicalKey(t) {
      assert data.Keys == json.Keys;
      RenamedCollected(KeyText, KeyOf, Looked, codec.default, data, texts);
      ValuesSurvive(codec, json);
    } else {
      var t :| t in json && !CanonicalKey(t);
      assert t !in Texts(m);
    }
  }

  lemma ValuesSurvive<V, J>(codec: Codec<V, J>, json: map<string, J>)
    ensures Encoded(codec, Decoded(codec, json)) == json <==>
            forall t :: t in json ==> codec.encode(codec.decode(json[t])) == json[t]
  {
    var e := Encoded(codec, Decoded(codec, json));
    assert e.Keys == json.Keys;
    assert forall t :: t in json ==> e[t] == codec.encode(codec.decode(json[t]));
  }

  /** No object with the key "$01" comes back. */
  lemma LeadingZeroKeyIsLost<V, J>(codec: Codec<V, J>, json: map<string, J>, texts: seq<string>)
    requires Enumerates(texts, json.Keys) && "$01" in json
    ensures Encoded(codec, Texts(Loaded(codec, json, texts))) != json
  {
    assert "$01"[1..] == "01";
    WritesBackWhatWasRead(codec, json, texts);
  }
}
