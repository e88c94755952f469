/** The tree of parameters behind a query string: what the bracketed keys say. */
module QueryTree {
  import opened Wire
  import opened UrlQuery

  // ----- the leaves of a tree

  /** The names that lead to a leaf, an empty one for each array, and the text there. */
  datatype Leaf = Leaf(names: seq<seq<Byte>>, text: seq<Byte>)

  /** The leaves, one name further down. */
  function Under(name: seq<Byte>, ls: seq<Leaf>): seq<Leaf> {
    if ls == [] then [] else [Leaf([name] + ls[0].names, ls[0].text)] + Under(name, ls[1..])
  }

  /** The leaves in order; true is the digit 1, false the digit 0. */
  function Leaves(value: Value): seq<Leaf>
    decreases value, 1
  {
    match value
    case Dictionary(_) => LeavesOfEntries(value, 0)
    case Array(_) => LeavesOfItems(value, 0)
    case Number(_, true, b) => [Leaf([], if b then [49] else [48])]
    case Number(description, false, _) => [Leaf([], Utf8(description))]
    case Boolean(b) => [Leaf([], if b then [49] else [48])]
    case Other(description) => [Leaf([], Utf8(description))]
  }

  function LeavesOfEntries(d: Value, k: nat): seq<Leaf>
    requires d.Dictionary? && k <= |d.entries|
    decreases d, 0, |d.entries| - k
  {
    if k == |d.entries| then []
    else Under(Utf8(d.entries[k].key), Leaves(d.entries[k].value)) + LeavesOfEntries(d, k + 1)
  }

  function LeavesOfItems(a: Value, k: nat): seq<Leaf>
    requires a.Array? && k <= |a.items|
    decreases a, 0, |a.items| - k
  {
    if k == |a.items| then [] else Under([], Leaves(a.items[k])) + LeavesOfItems(a, k + 1)
  }

  /** The leaves of all parameters, the parameter's own name first. */
  function AllLeaves(parameters: map<Text, Value>, keys: seq<Text>): seq<Leaf>
    requires forall i :: 0 <= i < |keys| ==> keys[i] in parameters
  {
    if keys == [] then []
    else Under(Utf8(keys[0]), Leaves(parameters[keys[0]])) + AllLeaves(parameters, keys[1..])
  }

  // ----- a reader of bracketed keys

  /** "[" and everything up to the next "]", again and again. */
  function ReadSteps(s: seq<Byte>): Option<seq<seq<Byte>>>
    decreases |s|
  {
    if s == [] then Some([])
    else if s[0] != 91 then None
    else
      var t := s[1..];
      var i := IndexOf(t, 93);
      if i == |t| then None
      else
        match ReadSteps(t[i + 1..])
        case None => None
        case Some(more) => Some([t[..i]] + more)
  }

  /** The first name up to a "[", then the bracketed ones. */
  function ReadKey(s: seq<Byte>): Option<seq<seq<Byte>>> {
    var i := IndexOf(s, 91);
    match ReadSteps(s[i..])
    case None => None
    case Some(more) => Some([s[..i]] + more)
  }

  function ReadLeaves(ps: seq<Pair<seq<Byte>>>): Option<seq<Leaf>> {
    if ps == [] then Some([])
    else
      match (ReadKey(ps[0].key), ReadLeaves(ps[1..]))
      case (Some(names), Some(ls)) => Some([Leaf(names, ps[0].value)] + ls)
      case _ => None
  }

  function ReadTree(query: seq<Byte>): Option<seq<Leaf>> {
    match ReadQuery(query)
    case None => None
    case Some(ps) => ReadLeaves(ps)
  }

  // ----- what the keys look like

  function Steps(names: seq<seq<Byte>>): seq<Byte> {
    if names == [] then [] else [91] + names[0] + [93] + Steps(names[1..])
  }

  function Named(key: seq<Byte>, ls: seq<Leaf>): seq<Pair<seq<Byte>>> {
    if ls == [] then [] else [Pair(key + Steps(ls[0].names), ls[0].text)] + Named(key, ls[1..])
  }

  lemma {:induction false} NamedConcat(key: seq<Byte>, a: seq<Leaf>, b: seq<Leaf>)
    ensures Named(key, a + b) == Named(key, a) + Named(key, b)
  {
    if a == [] {
      assert a + b == b;
    } else {
      assert (a + b)[1..] == a[1..] + b;
      NamedConcat(key, a[1..], b);
    }
  }

  lemma {:induction false} NamedUnder(key: seq<Byte>, name: seq<Byte>, ls: seq<Leaf>)
    ensures Named(key, Under(name, ls)) == Named(key + [91] + name + [93], ls)
  {
    if ls != [] {
      var names := ls[0].names;
      assert ([name] + names)[1..] == names;
      assert key + ([91] + name + [93] + Steps(names)) == key + [91] + name + [93] + Steps(names);
      NamedUnder(key, name, ls[1..]);
      assert Under(name, ls)[1..] == Under(name, ls[1..]);
    }
  }

  lemma {:induction false} PairsConcat(ps: seq<Pair<Text>>, qs: seq<Pair<Text>>)
    ensures Utf8Pairs(ps + qs) == Utf8Pairs(ps) + Utf8Pairs(qs)
  {
    hide Utf8;
    if ps == [] {
      assert ps + qs == qs;
    } else {
      assert (ps + qs)[1..] == ps[1..] + qs;
      PairsConcat(ps[1..], qs);
    }
  }

  lemma NestedKey(key: Text, name: Text)
    ensures Utf8(key + OPEN + name + CLOSE) == Utf8(key) + [91] + Utf8(name) + [93]
  {
    Utf8Concat(key + OPEN + name, CLOSE);
    Utf8Concat(key + OPEN, name);
    Utf8Concat(key, OPEN);
    assert OPEN[1..] == [] && CLOSE[1..] == [];
  }

  lemma ItemKey(key: Text)
    ensures Utf8(key + OPEN + CLOSE) == Utf8(key) + [91] + [] + [93]
  {
    Utf8Concat(key + OPEN, CLOSE);
    Utf8Concat(key, OPEN);
    assert OPEN[1..] == [] && CLOSE[1..] == [];
  }

  /** The flattened list names the leaves of the tree, in order. */
  lemma {:induction false} FlatNames(key: Text, value: Value)
    ensures Utf8Pairs(Flat(key, value)) == Named(Utf8(key), Leaves(value))
    decreases value, 1
  {
    match value
    case Dictionary(_) => EntriesNamed(key, value, 0);
    case Array(_) => ItemsNamed(key, value, 0);
    case _ =>
      assert Utf8(ONE) == [49] && Utf8(ZERO) == [48] by {
        assert ONE[1..] == [] && ZERO[1..] == [];
      }
      OnePair(key, Flat(key, value)[0].value);
  }

  lemma OnePair(key: Text, text: Text)
    ensures Utf8Pairs([Pair(key, text)]) == Named(Utf8(key), [Leaf([], Utf8(text))])
  {
    var p, l := Pair(key, text), Leaf([], Utf8(text));
    assert [p][1..] == [] && [l][1..] == [];
    assert Utf8(key) + [] == Utf8(key);
  }

  lemma {:induction false} EntriesNamed(key: Text, d: Value, k: nat)
    requires d.Dictionary? && k <= |d.entries|
    ensures Utf8Pairs(FlatEntries(key, d, k)) == Named(Utf8(key), LeavesOfEntries(d, k))
    decreases d, 0, |d.entries| - k
  {
    hide Flat, Leaves, Utf8;
    if k < |d.entries| {
      var e := d.entries[k];
      var nested := key + OPEN + e.key + CLOSE;
      FlatNames(nested, e.value);
      NestedKey(key, e.key);
      NamedUnder(Utf8(key), Utf8(e.key), Leaves(e.value));
      EntriesNamed(key, d, k + 1);
      PairsConcat(Flat(nested, e.value), FlatEntries(key, d, k + 1));
      NamedConcat(Utf8(key), Under(Utf8(e.key), Leaves(e.value)), LeavesOfEntries(d, k + 1));
    }
  }

  lemma {:induction false} ItemsNamed(key: Text, a: Value, k: nat)
    requires a.Array? && k <= |a.items|
    ensures Utf8Pairs(FlatItems(key, a, k)) == Named(Utf8(key), LeavesOfItems(a, k))
    decreases a, 0, |a.items| - k
  {
    hide Flat, Leaves, Utf8;
    if k < |a.items| {
      var nested := key + OPEN + CLOSE;
      FlatNames(nested, a.items[k]);
      ItemKey(key);
      NamedUnder(Utf8(key), [], Leaves(a.items[k]));
      ItemsNamed(key, a, k + 1);
      PairsConcat(Flat(nested, a.items[k]), FlatItems(key, a, k + 1));
      NamedConcat(Utf8(key), Under([], Leaves(a.items[k])), LeavesOfItems(a, k + 1));
    }
  }

  // ----- reading the keys

  /** The first name holds no "[", the others no "]". */
  predicate Clean(names: seq<seq<Byte>>)
    requires names != []
  {
    91 !in names[0] && forall j :: 1 <= j < |names| ==> 93 !in names[j]
  }

  lemma {:induction false} IndexOfFirst(p: seq<Byte>, b: Byte, t: seq<Byte>)
    ensures b !in p ==> IndexOf(p + [b] + t, b) == |p| && IndexOf(p, b) == |p|
    ensures b in p ==> IndexOf(p + t, b) < |p|
  {
    if p != [] {
      assert (p + [b] + t)[1..] == p[1..] + [b] + t && (p + t)[1..] == p[1..] + t;
      IndexOfFirst(p[1..], b, t);
    }
  }

  function Prepended(n: seq<Byte>, r: Option<seq<seq<Byte>>>): Option<seq<seq<Byte>>> {
    if r.Some? then Some([n] + r.value) else None
  }

  /** The reader takes one bracketed name as a whole, or less of it when it holds a "]". */
  lemma StepOnce(n: seq<Byte>, more: seq<Byte>)
    ensures var r := ReadSteps([91] + n + [93] + more);
            if 93 !in n then r == Prepended(n, ReadSteps(more))
            else r.Some? ==> r.value != [] && |r.value[0]| < |n|
  {
    hide IndexOf;
    var s, t := [91] + n + [93] + more, n + [93] + more;
    assert s[1..] == t && t == n + ([93] + more);
    IndexOfFirst(n, 93, more);
    IndexOfFirst(n, 93, [93] + more);
    SplitAt(n, [93] + more);
    SplitAt(n + [93], more);
  }

  lemma PrependedIs(n: seq<Byte>, r: Option<seq<seq<Byte>>>, names: seq<seq<Byte>>)
    requires names != [] && names[0] == n
    ensures Prepended(n, r) == Some(names) <==> r == Some(names[1..])
  {
    assert names == [n] + names[1..];
    if r.Some? {
      assert ([n] + r.value)[1..] == r.value;
    }
  }

  lemma {:induction false} StepsRead(names: seq<seq<Byte>>)
    ensures ReadSteps(Steps(names)) == Some(names) <==> forall j :: 0 <= j < |names| ==> 93 !in names[j]
  {
    if names != [] {
      StepsRead(names[1..]);
      StepOnce(names[0], Steps(names[1..]));
      PrependedIs(names[0], ReadSteps(Steps(names[1..])), names);
      hide ReadSteps;
    }
  }

  lemma StepsStart(names: seq<seq<Byte>>)
    ensures var s := Steps(names); s == [] || s == [91] + s[1..]
  {
  }

  lemma KeyRead(names: seq<seq<Byte>>)
    requires names != []
    ensures ReadKey(names[0] + Steps(names[1..])) == Some(names) <==> Clean(names)
  {
    hide IndexOf, ReadSteps, Steps;
    var n, steps := names[0], Steps(names[1..]);
    StepsRead(names[1..]);
    PrependedIs(n, ReadSteps(steps), names);
    StepsStart(names[1..]);
    FirstName(n, steps);
    if ReadKey(n + steps).Some? && 91 in n {
      assert |ReadKey(n + steps).value[0]| < |n|;
    }
  }

  /** The first name ends where the brackets begin, or earlier when it holds a "[". */
  lemma FirstName(n: seq<Byte>, steps: seq<Byte>)
    requires steps == [] || steps == [91] + steps[1..]
    ensures var s := n + steps; var i := IndexOf(s, 91);
            if 91 !in n then i == |n| && s[..i] == n && s[i..] == steps else i < |n|
  {
    hide IndexOf;
    SplitAt(n, steps);
    IndexOfFirst(n, 91, steps);
    if steps == [] {
      assert n + steps == n;
    } else {
      Assoc(n, [91], steps[1..]);
      IndexOfFirst(n, 91, steps[1..]);
    }
  }

  predicate AllClean(ls: seq<Leaf>) { forall j :: 0 <= j < |ls| ==> ls[j].names != [] && Clean(ls[j].names) }

  /** The pairs of leaves with their full names. */
  function Keyed(ls: seq<Leaf>): seq<Pair<seq<Byte>>>
    requires forall j :: 0 <= j < |ls| ==> ls[j].names != []
  {
    if ls == [] then [] else [Pair(ls[0].names[0] + Steps(ls[0].names[1..]), ls[0].text)] + Keyed(ls[1..])
  }

  lemma {:induction false} KeyedRead(ls: seq<Leaf>)
    requires forall j :: 0 <= j < |ls| ==> ls[j].names != []
    ensures ReadLeaves(Keyed(ls)) == Some(ls) <==> AllClean(ls)
  {
    hide ReadKey, Steps, Clean;
    if ls != [] {
      KeyRead(ls[0].names);
      KeyedRead(ls[1..]);
      assert Keyed(ls)[1..] == Keyed(ls[1..]);
      LeavesStep(ls, ReadKey(Keyed(ls)[0].key), ReadLeaves(Keyed(ls[1..])));
      assert AllClean(ls) <==> Clean(ls[0].names) && AllClean(ls[1..]);
    }
  }

  lemma LeavesStep(ls: seq<Leaf>, names: Option<seq<seq<Byte>>>, more: Option<seq<Leaf>>)
    requires ls != []
    ensures (names.Some? && more.Some? && [Leaf(names.value, ls[0].text)] + more.value == ls) <==>
            names == Some(ls[0].names) && more == Some(ls[1..])
  {
    assert ls == [ls[0]] + ls[1..];
    if names.Some? && more.Some? {
      var r := [Leaf(names.value, ls[0].text)] + more.value;
      assert r[0] == Leaf(names.value, ls[0].text) && r[1..] == more.value;
    }
  }

  lemma {:induction false} KeyedConcat(a: seq<Leaf>, b: seq<Leaf>)
    requires forall j :: 0 <= j < |a| ==> a[j].names != []
    requires forall j :: 0 <= j < |b| ==> b[j].names != []
    ensures Keyed(a + b) == Keyed(a) + Keyed(b)
  {
    if a == [] {
      assert a + b == b;
    } else {
      assert (a + b)[1..] == a[1..] + b;
      KeyedConcat(a[1..], b);
    }
  }

  lemma {:induction false} UnderKeyed(name: seq<Byte>, ls: seq<Leaf>)
    ensures forall l :: l in Under(name, ls) ==> l.names != []
    ensures Keyed(Under(name, ls)) == Named(name, ls)
  {
    if ls != [] {
      UnderKeyed(name, ls[1..]);
      assert ([name] + ls[0].names)[1..] == ls[0].names;
      assert Under(name, ls)[1..] == Under(name, ls[1..]);
    }
  }

  lemma {:induction false} AllNamed(parameters: map<Text, Value>, keys: seq<Text>)
    requires forall i :: 0 <= i < |keys| ==> keys[i] in parameters
    ensures forall l :: l in AllLeaves(parameters, keys) ==> l.names != []
    ensures Utf8Pairs(FlatAll(parameters, keys)) == Keyed(AllLeaves(parameters, keys))
  {
    hide Flat, Leaves, Utf8;
    if keys != [] {
      var key, value := keys[0], parameters[keys[0]];
      FlatNames(key, value);
      UnderKeyed(Utf8(key), Leaves(value));
      AllNamed(parameters, keys[1..]);
      PairsConcat(Flat(key, value), FlatAll(parameters, keys[1..]));
      KeyedConcat(Under(Utf8(key), Leaves(value)), AllLeaves(parameters, keys[1..]));
    }
  }

  /** The query string of any parameters reads back as the leaves of their trees, in order and with all
    * names, exactly when there is a leaf and no name holds the bracket that ends it. */
  lemma TreeRoundTrip(parameters: map<Text, Value>, keys: seq<Text>)
    requires forall i :: 0 <= i < |keys| ==> keys[i] in parameters
    ensures var ls := AllLeaves(parameters, keys);
            ReadTree(Joined(EscapePairs(FlatAll(parameters, keys)))) == Some(ls) <==> ls != [] && AllClean(ls)
  {
    var ps, ls := FlatAll(parameters, keys), AllLeaves(parameters, keys);
    AllNamed(parameters, keys);
    KeyedRead(ls);
    QueryRoundTrip(ps);
    if ps == [] {
      NoPairs();
      EmptyQuery(Joined(EscapePairs(ps)));
    }
    hide ReadKey, Escaped, AllClean;
  }

  /** The parameter a[b] and the entry b of a parameter a look the same. */
  lemma BracketsConfused(v: Value)
    ensures Flat([[97]], Dictionary([Entry([[98]], v)])) == Flat([[97], [91], [98], [93]], v)
  {
    var d := Dictionary([Entry([[98]], v)]);
    assert [[97]] + OPEN + [[98]] + CLOSE == [[97], [91], [98], [93]];
    assert FlatEntries([[97]], d, 1) == [];
    assert FlatEntries([[97]], d, 0) == Flat([[97], [91], [98], [93]], v) + [];
  }
}
