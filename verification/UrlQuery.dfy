/** `ParameterEncoding.swift`: nested parameters as a percent-escaped query string, and its reading back
  * after sections 2.1 and 3.4 of RFC 3986. */
module UrlQuery {
  import opened Wire

  /** A user-perceived character, as its UTF-8 bytes. */
  type Character = seq<Byte>

  type Text = seq<Character>

  function Utf8(text: Text): seq<Byte> {
    if text == [] then [] else text[0] + Utf8(text[1..])
  }

  // ----- percent encoding

  const PERCENT: Byte := 37
  const AMPERSAND: Byte := 38
  const EQUALS: Byte := 61

  /** urlQueryAllowed without the delimiters that escape removes: the unreserved characters, "/" and "?". */
  predicate Allowed(b: Byte) {
    || 65 <= b <= 90 || 97 <= b <= 122 || 48 <= b <= 57
    || b == 45 || b == 46 || b == 95 || b == 126 || b == 47 || b == 63
  }

  function HexDigit(n: nat): Byte
    requires n < 16
  {
    if n < 10 then 48 + n else 55 + n
  }

  function EncodeByte(b: Byte): seq<Byte> {
    if Allowed(b) then [b] else [PERCENT, HexDigit(b / 16), HexDigit(b % 16)]
  }

  function PercentEncode(p: seq<Byte>): seq<Byte> {
    if p == [] then [] else EncodeByte(p[0]) + PercentEncode(p[1..])
  }

  datatype Option<T> = Some(value: T) | None

  /** Digits in either case, as section 2.1 of RFC 3986 asks. */
  function HexValue(b: Byte): Option<nat> {
    if 48 <= b <= 57 then Some(b - 48)
    else if 65 <= b <= 70 then Some(b - 55)
    else if 97 <= b <= 102 then Some(b - 87)
    else None
  }

  function PercentDecode(s: seq<Byte>): Option<seq<Byte>>
    decreases |s|
  {
    if s == [] then Some([])
    else if s[0] != 37 then
      match PercentDecode(s[1..])
      case None => None
      case Some(p) => Some([s[0]] + p)
    else if |s| < 3 then None
    else
      match (HexValue(s[1]), HexValue(s[2]), PercentDecode(s[3..]))
      case (Some(hi), Some(lo), Some(p)) => Some([16 * hi + lo] + p)
      case _ => None
  }

  lemma {:induction false} PercentRoundTrip(p: seq<Byte>)
    ensures PercentDecode(PercentEncode(p)) == Some(p)
  {
    if p != [] {
      PercentRoundTrip(p[1..]);
      var e, s := EncodeByte(p[0]), PercentEncode(p);
      SplitAt(e, PercentEncode(p[1..]));
      assert [p[0]] + p[1..] == p;
      assert s[..|e|] == e && s[|e|..] == PercentEncode(p[1..]);
      assert s[0] == e[0];
      if !Allowed(p[0]) {
        assert s[1] == e[1] && s[2] == e[2];
        assert 16 * (p[0] / 16) + p[0] % 16 == p[0];
      }
    }
  }

  /** urlQueryAllowed: what section 3.4 of RFC 3986 allows in a query besides escapes. */
  predicate QueryAllowed(c: char) {
    || 'a' <= c <= 'z' || 'A' <= c <= 'Z' || '0' <= c <= '9'
    || c in "-._~" || c in "!$&'()*+,;=" || c in ":@" || c in "/?"
  }

  /** The delimiters that escape removes from it. */
  predicate Delimiter(c: char) { c in ":#[]@" || c in "!$&'()*+,;=" }

  lemma AllowedIsUndelimited(b: Byte)
    ensures Allowed(b) <==> QueryAllowed(b as char) && !Delimiter(b as char)
  {
  }

  /** An allowed byte stays; any other one becomes "%" and two upper-case digits. */
  lemma ByteEncoding(b: Byte)
    ensures QueryAllowed(b as char) && !Delimiter(b as char) ==> EncodeByte(b) == [b]
    ensures !QueryAllowed(b as char) || Delimiter(b as char) ==>
              var digits := "0123456789ABCDEF";
              EncodeByte(b) == ['%' as nat, digits[b / 16] as nat, digits[b % 16] as nat]
  {
    AllowedIsUndelimited(b);
  }

  /** Nothing but unreserved characters, "/", "?" and escapes: no delimiter, and neither separator. */
  lemma {:induction false} EncodedIsLegal(p: seq<Byte>)
    ensures forall b :: b in PercentEncode(p) ==> QueryAllowed(b as char) || b as char == '%'
    ensures forall b :: b in PercentEncode(p) ==> !Delimiter(b as char)
    ensures AMPERSAND !in PercentEncode(p) && EQUALS !in PercentEncode(p)
  {
    if p != [] {
      AllowedIsUndelimited(p[0]);
      EncodedIsLegal(p[1..]);
    }
  }

  lemma {:induction false} EncodeConcat(p: seq<Byte>, q: seq<Byte>)
    ensures PercentEncode(p + q) == PercentEncode(p) + PercentEncode(q)
  {
    if p == [] {
      NilLeft(q);
      NilLeft(PercentEncode(q));
    } else {
      assert (p + q)[1..] == p[1..] + q;
      EncodeConcat(p[1..], q);
      Assoc(EncodeByte(p[0]), PercentEncode(p[1..]), PercentEncode(q));
    }
  }

  /** With this and `Utf8Concat`: all bytes of all characters, in order. */
  lemma Utf8One(c: Character)
    ensures Utf8([c]) == c
  {
    assert [c][1..] == [];
    assert c + [] == c;
  }

  lemma {:induction false} Utf8Concat(a: Text, b: Text)
    ensures Utf8(a + b) == Utf8(a) + Utf8(b)
  {
    if a == [] {
      assert a + b == b;
      NilLeft(Utf8(b));
    } else {
      assert (a + b)[1..] == a[1..] + b;
      Utf8Concat(a[1..], b);
      Assoc(a[0], Utf8(a[1..]), Utf8(b));
    }
  }

  function Escaped(text: Text): seq<Byte> { PercentEncode(Utf8(text)) }

  lemma EscapedConcat(a: Text, b: Text)
    ensures Escaped(a + b) == Escaped(a) + Escaped(b)
  {
    Utf8Concat(a, b);
    EncodeConcat(Utf8(a), Utf8(b));
  }

  const BATCH_SIZE: nat := 50

  /** escape: in one go on iOS 8.3 and later, otherwise in batches; both give the whole string escaped. */
  method Escape(text: Text, ios83: bool) returns (escaped: seq<Byte>)
    ensures escaped == PercentEncode(Utf8(text))
  {
    escaped := [];
    if ios83 {
      escaped := Escaped(text);
    } else {
      var index := 0;
      while index != |text|
        invariant 0 <= index <= |text| && escaped == Escaped(text[..index])
        decreases |text| - index
      {
        var startIndex := index;
        var endIndex := if index + BATCH_SIZE <= |text| then index + BATCH_SIZE else |text|;
        var substring := text[startIndex..endIndex];
        EscapedConcat(text[..startIndex], substring);
        assert text[..startIndex] + substring == text[..endIndex];
        escaped := escaped + Escaped(substring);
        index := endIndex;
      }
      assert text[..|text|] == text;
    }
  }

  // ----- flattening

  datatype Entry = Entry(key: Text, value: Value)

  /** A parameter; numbers and other objects come with their description. */
  datatype Value =
    | Dictionary(entries: seq<Entry>)
    | Array(items: seq<Value>)
    | Number(description: Text, isBool: bool, boolValue: bool)
    | Boolean(b: bool)
    | Other(description: Text)

  datatype Pair<T> = Pair(key: T, value: T)

  const OPEN: Text := [[91]]
  const CLOSE: Text := [[93]]
  const ZERO: Text := [[48]]
  const ONE: Text := [[49]]

  function Digit(b: bool): Text { if b then ONE else ZERO }

  /** The flattened list of bracketed keys and values. */
  function Flat(key: Text, value: Value): seq<Pair<Text>>
    decreases value, 1
  {
    match value
    case Dictionary(_) => FlatEntries(key, value, 0)
    case Array(_) => FlatItems(key, value, 0)
    case Number(description, isBool, boolValue) => [Pair(key, if isBool then Digit(boolValue) else description)]
    case Boolean(b) => [Pair(key, Digit(b))]
    case Other(description) => [Pair(key, description)]
  }

  function FlatEntries(key: Text, d: Value, k: nat): seq<Pair<Text>>
    requires d.Dictionary? && k <= |d.entries|
    decreases d, 0, |d.entries| - k
  {
    if k == |d.entries| then []
    else Flat(key + OPEN + d.entries[k].key + CLOSE, d.entries[k].value) + FlatEntries(key, d, k + 1)
  }

  function FlatItems(key: Text, a: Value, k: nat): seq<Pair<Text>>
    requires a.Array? && k <= |a.items|
    decreases a, 0, |a.items| - k
  {
    if k == |a.items| then [] else Flat(key + OPEN + CLOSE, a.items[k]) + FlatItems(key, a, k + 1)
  }

  function EscapePairs(ps: seq<Pair<Text>>): seq<Pair<seq<Byte>>> {
    if ps == [] then [] else [Pair(Escaped(ps[0].key), Escaped(ps[0].value))] + EscapePairs(ps[1..])
  }

  lemma {:induction false} EscapePairsConcat(ps: seq<Pair<Text>>, qs: seq<Pair<Text>>)
    ensures EscapePairs(ps + qs) == EscapePairs(ps) + EscapePairs(qs)
  {
    hide Escaped;
    if ps == [] {
      assert ps + qs == qs;
    } else {
      assert (ps + qs)[1..] == ps[1..] + qs;
      EscapePairsConcat(ps[1..], qs);
    }
  }

  /** queryComponents */
  method QueryComponents(key: Text, value: Value, ios83: bool) returns (components: seq<Pair<seq<Byte>>>)
    ensures components == EscapePairs(Flat(key, value))
    decreases value
  {
    hide Escaped;
    components := [];
    match value
    case Dictionary(entries) =>
      for i := 0 to |entries|
        invariant components + EscapePairs(FlatEntries(key, value, i)) == EscapePairs(Flat(key, value))
      {
        var nested := QueryComponents(key + OPEN + entries[i].key + CLOSE, entries[i].value, ios83);
        EscapePairsConcat(Flat(key + OPEN + entries[i].key + CLOSE, entries[i].value), FlatEntries(key, value, i + 1));
        components := components + nested;
      }
    case Array(items) =>
      for i := 0 to |items|
        invariant components + EscapePairs(FlatItems(key, value, i)) == EscapePairs(Flat(key, value))
      {
        var nested := QueryComponents(key + OPEN + CLOSE, items[i], ios83);
        EscapePairsConcat(Flat(key + OPEN + CLOSE, items[i]), FlatItems(key, value, i + 1));
        components := components + nested;
      }
    case Number(description, isBool, boolValue) =>
      components := EscapedPair(key, if isBool then Digit(boolValue) else description, ios83);
    case Boolean(b) =>
      components := EscapedPair(key, Digit(b), ios83);
    case Other(description) =>
      components := EscapedPair(key, description, ios83);
  }

  method EscapedPair(key: Text, value: Text, ios83: bool) returns (components: seq<Pair<seq<Byte>>>)
    ensures components == EscapePairs([Pair(key, value)])
  {
    var k := Escape(key, ios83);
    var v := Escape(value, ios83);
    components := [Pair(k, v)];
  }

  // ----- the query string

  /** All parameters, in the order of their sorted keys. */
  function FlatAll(parameters: map<Text, Value>, keys: seq<Text>): seq<Pair<Text>>
    requires forall i :: 0 <= i < |keys| ==> keys[i] in parameters
  {
    if keys == [] then [] else Flat(keys[0], parameters[keys[0]]) + FlatAll(parameters, keys[1..])
  }

  function PairText(p: Pair<seq<Byte>>): seq<Byte> { p.key + [EQUALS] + p.value }

  function Joined(ps: seq<Pair<seq<Byte>>>): seq<Byte> {
    if ps == [] then [] else if |ps| == 1 then PairText(ps[0]) else PairText(ps[0]) + [AMPERSAND] + Joined(ps[1..])
  }

  /** Swift's `<` on strings. */
  type Order = (Text, Text) -> bool

  ghost predicate IsOrder(less: Order) {
    && (forall a: Text, b: Text :: less(a, b) ==> !less(b, a))
    && (forall a: Text, b: Text, c: Text :: less(a, b) && less(b, c) ==> less(a, c))
    && (forall a: Text, b: Text :: a == b || less(a, b) || less(b, a))
  }

  ghost predicate Sorted(keys: seq<Text>, less: Order) {
    forall i, j :: 0 <= i < j < |keys| ==> less(keys[i], keys[j])
  }

  /** All the keys, sorted. */
  ghost predicate Lists(keys: seq<Text>, all: set<Text>, less: Order) {
    Sorted(keys, less) && forall k: Text :: k in keys <==> k in all
  }

  /** There is only one such list. */
  lemma {:induction false} ListsUnique(a: seq<Text>, b: seq<Text>, all: set<Text>, less: Order)
    requires IsOrder(less) && Lists(a, all, less) && Lists(b, all, less)
    ensures a == b
    decreases |a|
  {
    NoKeys(a, all, less);
    NoKeys(b, all, less);
    if a != [] {
      assert a[0] in b && b[0] in a;
      assert a[0] == b[0];
      SortedRest(a, all, less);
      SortedRest(b, all, less);
      ListsUnique(a[1..], b[1..], all - {a[0]}, less);
      assert a == [a[0]] + a[1..] && b == [b[0]] + b[1..];
    }
  }

  lemma NoKeys(a: seq<Text>, all: set<Text>, less: Order)
    requires Lists(a, all, less)
    ensures a == [] <==> all == {}
  {
    if a != [] {
      assert a[0] in all;
    }
  }

  lemma SortedRest(a: seq<Text>, all: set<Text>, less: Order)
    requires IsOrder(less) && Lists(a, all, less) && a != []
    ensures Lists(a[1..], all - {a[0]}, less)
  {
    forall k: Text ensures k in a[1..] <==> k in all - {a[0]} {
      if k in a[1..] {
        var j :| 0 <= j < |a[1..]| && a[1..][j] == k;
        assert a[j + 1] == k && less(a[0], k);
      }
      if k in all && k != a[0] {
        var j :| 0 <= j < |a| && a[j] == k;
        assert a[1..][j - 1] == k;
      }
    }
  }

  /** keys.sorted(by: <), by inserting one key after the other */
  method SortedKeys(all: set<Text>, less: Order) returns (keys: seq<Text>)
    requires IsOrder(less)
    ensures Lists(keys, all, less)
  {
    keys := [];
    var left := all;
    while left != {}
      invariant left <= all && Lists(keys, all - left, less)
      decreases left
    {
      var k :| k in left;
      keys := Insert(keys, k, all - left, less);
      left := left - {k};
      assert all - left - {k} + {k} == all - left;
    }
    assert all - {} == all;
  }

  method Insert(keys: seq<Text>, k: Text, all: set<Text>, less: Order) returns (r: seq<Text>)
    requires IsOrder(less) && Lists(keys, all, less) && k !in all
    ensures Lists(r, all + {k}, less)
  {
    var i := 0;
    while i < |keys| && less(keys[i], k)
      invariant 0 <= i <= |keys| && forall j :: 0 <= j < i ==> less(keys[j], k)
    {
      i := i + 1;
    }
    forall j | i <= j < |keys| ensures less(k, keys[j]) {
      assert keys[i] in all;
    }
    r := keys[..i] + [k] + keys[i..];
  }

  /** query */
  method Query(parameters: map<Text, Value>, less: Order, ios83: bool) returns (query: seq<Byte>)
    requires IsOrder(less)
    ensures exists keys :: Lists(keys, parameters.Keys, less) && query == Joined(EscapePairs(FlatAll(parameters, keys)))
  {
    var keys := SortedKeys(parameters.Keys, less);
    assert forall i :: 0 <= i < |keys| ==> keys[i] in parameters.Keys;
    query := QueryOf(parameters, keys, ios83);
  }

  /** Its loop over the sorted keys */
  method QueryOf(parameters: map<Text, Value>, keys: seq<Text>, ios83: bool) returns (query: seq<Byte>)
    requires forall i :: 0 <= i < |keys| ==> keys[i] in parameters
    ensures query == Joined(EscapePairs(FlatAll(parameters, keys)))
  {
    hide EscapePairs, Flat;
    var components: seq<Pair<seq<Byte>>> := [];
    for i := 0 to |keys|
      invariant components + EscapePairs(FlatAll(parameters, keys[i..])) == EscapePairs(FlatAll(parameters, keys))
    {
      var key := keys[i];
      var more := QueryComponents(key, parameters[key], ios83);
      assert keys[i..][1..] == keys[i + 1..];
      EscapePairsConcat(Flat(key, parameters[key]), FlatAll(parameters, keys[i + 1..]));
      components := components + more;
    }
    NoPairs();
    assert keys[|keys|..] == [] && components + [] == components;
    return Joined(components);
  }

  lemma NoPairs()
    ensures EscapePairs([]) == []
  {
  }

  // ----- reading it back

  function Split(s: seq<Byte>, separator: Byte): (r: seq<seq<Byte>>)
    ensures r != []
  {
    if s == [] then [[]]
    else
      var r := Split(s[1..], separator);
      if s[0] == separator then [[]] + r else [[s[0]] + r[0]] + r[1..]
  }

  /** A key up to the first "=", a value behind it. */
  function ReadPair(s: seq<Byte>): Option<Pair<seq<Byte>>> {
    var i := IndexOf(s, 61);
    match (PercentDecode(s[..i]), PercentDecode(if i < |s| then s[i + 1..] else []))
    case (Some(key), Some(value)) => Some(Pair(key, value))
    case _ => None
  }

  function IndexOf(s: seq<Byte>, b: Byte): (i: nat)
    ensures i <= |s|
  {
    if s == [] || s[0] == b then 0 else 1 + IndexOf(s[1..], b)
  }

  function ReadPairs(pieces: seq<seq<Byte>>): Option<seq<Pair<seq<Byte>>>> {
    if pieces == [] then Some([])
    else
      match (ReadPair(pieces[0]), ReadPairs(pieces[1..]))
      case (Some(p), Some(ps)) => Some([p] + ps)
      case _ => None
  }

  function ReadQuery(s: seq<Byte>): Option<seq<Pair<seq<Byte>>>> { ReadPairs(Split(s, 38)) }

  function Utf8Pairs(ps: seq<Pair<Text>>): seq<Pair<seq<Byte>>> {
    if ps == [] then [] else [Pair(Utf8(ps[0].key), Utf8(ps[0].value))] + Utf8Pairs(ps[1..])
  }

  lemma {:induction false} SplitPiece(p: seq<Byte>, separator: Byte, t: seq<Byte>)
    requires separator !in p
    ensures Split(p, separator) == [p]
    ensures Split(p + [separator] + t, separator) == [p] + Split(t, separator)
  {
    if p == [] {
      assert (p + [separator] + t)[1..] == t;
    } else {
      assert (p + [separator] + t)[1..] == p[1..] + [separator] + t;
      SplitPiece(p[1..], separator, t);
      assert [p[0]] + p[1..] == p;
    }
  }

  lemma {:induction false} IndexOfEnd(p: seq<Byte>, b: Byte, t: seq<Byte>)
    requires b !in p
    ensures IndexOf(p + [b] + t, b) == |p|
  {
    if p != [] {
      assert (p + [b] + t)[1..] == p[1..] + [b] + t;
      IndexOfEnd(p[1..], b, t);
    }
  }

  lemma PairRoundTrip(p: Pair<Text>)
    ensures var s := PairText(Pair(Escaped(p.key), Escaped(p.value)));
            AMPERSAND !in s && ReadPair(s) == Some(Pair(Utf8(p.key), Utf8(p.value)))
  {
    var k, v := Escaped(p.key), Escaped(p.value);
    EncodedIsLegal(Utf8(p.key));
    EncodedIsLegal(Utf8(p.value));
    PercentRoundTrip(Utf8(p.key));
    PercentRoundTrip(Utf8(p.value));
    IndexOfEnd(k, EQUALS, v);
    SplitAt(k + [EQUALS], v);
    Assoc(k, [EQUALS], v);
    SplitAt(k, [EQUALS] + v);
    hide PercentDecode, PercentEncode, Utf8;
  }

  /** Splitting on "&", then on "=", then decoding recovers the flattened list in order, exactly when it
    * is not empty: the empty query reads as one empty pair. */
  lemma {:induction false} QueryRoundTrip(ps: seq<Pair<Text>>)
    ensures ReadQuery(Joined(EscapePairs(ps))) == Some(Utf8Pairs(ps)) <==> ps != []
  {
    hide Escaped, Utf8, ReadPair, PairText;
    if ps == [] {
      EmptyQuery(Joined(EscapePairs(ps)));
    } else {
      var es, rest := EscapePairs(ps), EscapePairs(ps[1..]);
      assert es[1..] == rest;
      PairRoundTrip(ps[0]);
      SplitPiece(PairText(es[0]), AMPERSAND, Joined(rest));
      if |ps| > 1 {
        QueryRoundTrip(ps[1..]);
        var pieces := Split(Joined(es), AMPERSAND);
        assert pieces[1..] == Split(Joined(rest), AMPERSAND);
      } else {
        NoPairs();
        assert ps[1..] == [] && Utf8Pairs([]) == [];
        ReadOne(PairText(es[0]));
      }
    }
  }

  lemma ReadOne(piece: seq<Byte>)
    ensures ReadPairs([piece]) == if ReadPair(piece).Some? then Some([ReadPair(piece).value]) else None
  {
    assert [piece][1..] == [];
    var p := ReadPair(piece);
    if p.Some? {
      assert [p.value] + [] == [p.value];
    }
  }

  lemma EmptyQuery(s: seq<Byte>)
    requires s == []
    ensures ReadQuery(s).Some? && |ReadQuery(s).value| == 1
  {
    EmptyPair(s);
    ReadOne(s);
    assert Split(s, AMPERSAND) == [s];
  }

  lemma EmptyPair(s: seq<Byte>)
    requires s == []
    ensures ReadPair(s).Some?
  {
    assert s[..0] == s;
  }

  /** Different flattened lists never give the same query string. */
  lemma QueryInjective(ps: seq<Pair<Text>>, qs: seq<Pair<Text>>)
    requires ps != [] && qs != [] && Joined(EscapePairs(ps)) == Joined(EscapePairs(qs))
    ensures Utf8Pairs(ps) == Utf8Pairs(qs)
  {
    QueryRoundTrip(ps);
    QueryRoundTrip(qs);
  }
}
