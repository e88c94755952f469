/** The decoded message depends only on each field's own subsequence of records. */
module Order {
  import opened Wire
  import opened Descriptors
  import opened DecodeSpec
  import opened Records

  /** What a field writes: its union for a oneof member, itself otherwise. */
  function KeyOf(fields: seq<Field>, i: nat): nat
    requires i < |fields|
  {
    if fields[i].htype.Oneof? then Group(fields, i) else i
  }

  /** The key of a record; |fields| for an unknown field. */
  function Key(fields: seq<Field>, r: seq<Byte>): (k: nat)
    ensures k <= |fields|
  {
    match DecTag(r)
    case Tag(_, tag, _) => (var i := Lookup(fields, tag); if i < |fields| then KeyOf(fields, i) else |fields|)
    case _ => |fields|
  }

  predicate AllRecords(fields: seq<Field>, rs: seq<seq<Byte>>) {
    forall i :: 0 <= i < |rs| ==> IsRecord(fields, rs[i])
  }

  function Concat(rs: seq<seq<Byte>>): seq<Byte> {
    if rs == [] then [] else rs[0] + Concat(rs[1..])
  }

  /** The records of one key, in order. */
  function Only(fields: seq<Field>, rs: seq<seq<Byte>>, k: nat): seq<seq<Byte>> {
    if rs == [] then []
    else (if Key(fields, rs[0]) == k then [rs[0]] else []) + Only(fields, rs[1..], k)
  }

  /** Decoding record by record. */
  function Run(fields: seq<Field>, rs: seq<seq<Byte>>, st: State): (r: Decoded<State>)
    requires FieldsOk(fields) && MsgOk(fields, st.msg)
    ensures MsgOk(fields, r.out.msg)
  {
    if rs == [] then Ok(st, [])
    else
      match DecRecord(fields, rs[0], st)
      case Stop(rest) => Ok(st, rest)
      case Fail(st', lag) => Err(st', lag)
      case More(st', _) => Run(fields, rs[1..], st')
  }

  /** The key of the record where a failing run fails. */
  function FailKey(fields: seq<Field>, rs: seq<seq<Byte>>, st: State): (k: nat)
    requires FieldsOk(fields) && MsgOk(fields, st.msg) && Run(fields, rs, st).Err?
  {
    var r := DecRecord(fields, rs[0], st);
    if r.More? then FailKey(fields, rs[1..], r.st) else Key(fields, rs[0])
  }

  lemma {:induction false} LoopIsRun(fields: seq<Field>, rs: seq<seq<Byte>>, st: State)
    requires FieldsOk(fields) && MsgOk(fields, st.msg) && AllRecords(fields, rs)
    ensures DecLoop(fields, Concat(rs), st) == Run(fields, rs, st)
  {
    if rs != [] {
      var t := Concat(rs[1..]);
      RecordLocal(fields, rs[0], t, st);
      var r := DecRecord(fields, rs[0], st);
      NilLeft(t);
      if r.More? {
        LoopIsRun(fields, rs[1..], r.st);
      }
    }
  }

  // ----- states that agree on what one key writes

  predicate Agree(fields: seq<Field>, a: State, b: State, k: nat)
    requires MsgOk(fields, a.msg) && MsgOk(fields, b.msg)
  {
    && (forall i :: 0 <= i < |fields| && KeyOf(fields, i) == k ==> AgreeAt(a, b, i))
    && Which(a.msg, k) == Which(b.msg, k)
  }

  predicate AgreeAt(a: State, b: State, i: nat)
    requires i < |a.msg.slots| && i < |b.msg.slots|
  {
    a.msg.slots[i] == b.msg.slots[i] && (i in a.seen <==> i in b.seen)
  }

  /** A record acts alike on states that agree on its key. */
  lemma OwnKey(fields: seq<Field>, r: seq<Byte>, a: State, b: State)
    requires FieldsOk(fields) && MsgOk(fields, a.msg) && MsgOk(fields, b.msg) && IsRecord(fields, r)
    requires Agree(fields, a, b, Key(fields, r))
    ensures var x, y := DecRecord(fields, r, a), DecRecord(fields, r, b);
            && (x.More? <==> y.More?)
            && (x.More? ==> Agree(fields, x.st, y.st, Key(fields, r)))
  {
    var Tag(_, tag, _) := DecTag(r);
    var i := Lookup(fields, tag);
    if i < |fields| {
      assert AgreeAt(a, b, i);
      var x, y := DecRecord(fields, r, a), DecRecord(fields, r, b);
      if x.More? {
        forall j | 0 <= j < |fields| && KeyOf(fields, j) == Key(fields, r) ensures AgreeAt(x.st, y.st, j) {
          assert AgreeAt(a, b, j);
        }
      }
    }
  }

  /** A record leaves alone what other keys write. */
  lemma OtherKey(fields: seq<Field>, r: seq<Byte>, a: State, k: nat)
    requires FieldsOk(fields) && MsgOk(fields, a.msg) && IsRecord(fields, r) && Key(fields, r) != k
    requires DecRecord(fields, r, a).More?
    ensures Agree(fields, DecRecord(fields, r, a).st, a, k)
  {
  }

  lemma AgreeTrans(fields: seq<Field>, a: State, b: State, c: State, k: nat)
    requires MsgOk(fields, a.msg) && MsgOk(fields, b.msg) && MsgOk(fields, c.msg)
    requires Agree(fields, a, b, k) && Agree(fields, b, c, k)
    ensures Agree(fields, a, c, k)
  {
    forall i | 0 <= i < |fields| && KeyOf(fields, i) == k ensures AgreeAt(a, c, i) {
      assert AgreeAt(a, b, i) && AgreeAt(b, c, i);
    }
  }

  /** What a successful run leaves under a key comes from that key's records alone. */
  lemma {:induction false} Projection(fields: seq<Field>, rs: seq<seq<Byte>>, a: State, b: State, k: nat)
    requires FieldsOk(fields) && MsgOk(fields, a.msg) && MsgOk(fields, b.msg) && AllRecords(fields, rs)
    requires Agree(fields, a, b, k) && Run(fields, rs, a).Ok?
    ensures Run(fields, Only(fields, rs, k), b).Ok?
    ensures Agree(fields, Run(fields, rs, a).out, Run(fields, Only(fields, rs, k), b).out, k)
  {
    if rs != [] {
      var r, rest := rs[0], rs[1..];
      RecordLocal(fields, r, [], a);
      var a' := DecRecord(fields, r, a).st;
      if Key(fields, r) == k {
        OwnKey(fields, r, a, b);
        var b' := DecRecord(fields, r, b).st;
        Projection(fields, rest, a', b', k);
        assert ([r] + Only(fields, rest, k))[1..] == Only(fields, rest, k);
      } else {
        OtherKey(fields, r, a, k);
        AgreeTrans(fields, a', a, b, k);
        Projection(fields, rest, a', b, k);
        assert [] + Only(fields, rest, k) == Only(fields, rest, k);
      }
    }
  }

  /** A failing run fails on one key's records alone. */
  lemma {:induction false} FailureProjects(fields: seq<Field>, rs: seq<seq<Byte>>, a: State, b: State)
    requires FieldsOk(fields) && MsgOk(fields, a.msg) && MsgOk(fields, b.msg) && AllRecords(fields, rs)
    requires Run(fields, rs, a).Err? && Agree(fields, a, b, FailKey(fields, rs, a))
    ensures Run(fields, Only(fields, rs, FailKey(fields, rs, a)), b).Err?
    ensures FailKey(fields, rs, a) < |fields|
  {
    var r, rest, k := rs[0], rs[1..], FailKey(fields, rs, a);
    RecordLocal(fields, r, [], a);
    var x := DecRecord(fields, r, a);
    if Key(fields, r) == k {
      OwnKey(fields, r, a, b);
      RecordLocal(fields, r, [], b);
      assert ([r] + Only(fields, rest, k))[1..] == Only(fields, rest, k);
      if x.More? {
        FailureProjects(fields, rest, x.st, DecRecord(fields, r, b).st);
      }
    } else {
      OtherKey(fields, r, a, k);
      AgreeTrans(fields, x.st, a, b, k);
      FailureProjects(fields, rest, x.st, b);
      assert [] + Only(fields, rest, k) == Only(fields, rest, k);
    }
  }

  // ----- the theorems

  /** The two record strings agree field by field (union by union). */
  predicate SameSubsequences(fields: seq<Field>, rs: seq<seq<Byte>>, qs: seq<seq<Byte>>) {
    forall k :: 0 <= k < |fields| ==> Only(fields, rs, k) == Only(fields, qs, k)
  }

  /** The same slots and the same selectors. */
  predicate Identical(fields: seq<Field>, a: Message, b: Message) {
    a.slots == b.slots && forall k :: 0 <= k < |fields| ==> Which(a, k) == Which(b, k)
  }

  lemma AgreeSelf(fields: seq<Field>, a: State, k: nat)
    requires MsgOk(fields, a.msg)
    ensures Agree(fields, a, a, k)
  {
  }

  /** Both succeed, with the same result, or both fail. */
  predicate SameOutcome(x: Decoded<State>, y: Decoded<State>) { (x.Ok? <==> y.Ok?) && (x.Ok? ==> x == y) }

  /** Each key's own records have the same outcome in both. */
  predicate RunsAlike(fields: seq<Field>, rs: seq<seq<Byte>>, qs: seq<seq<Byte>>, st: State)
    requires FieldsOk(fields) && MsgOk(fields, st.msg)
  {
    forall k :: 0 <= k < |fields| ==>
        SameOutcome(Run(fields, Only(fields, rs, k), st), Run(fields, Only(fields, qs, k), st))
  }

  lemma SuccessCarries(fields: seq<Field>, rs: seq<seq<Byte>>, qs: seq<seq<Byte>>, st: State)
    requires FieldsOk(fields) && MsgOk(fields, st.msg) && AllRecords(fields, rs) && AllRecords(fields, qs)
    requires RunsAlike(fields, rs, qs, st) && Run(fields, rs, st).Ok?
    ensures Run(fields, qs, st).Ok?
  {
    hide Run, Only, FieldsOk, MsgOk;
    if Run(fields, qs, st).Err? {
      var k := FailKey(fields, qs, st);
      AgreeSelf(fields, st, k);
      FailureProjects(fields, qs, st, st);
      Projection(fields, rs, st, st, k);
    }
  }

  lemma OutcomesAgreeOn(fields: seq<Field>, rs: seq<seq<Byte>>, qs: seq<seq<Byte>>, st: State, k: nat)
    requires FieldsOk(fields) && MsgOk(fields, st.msg) && AllRecords(fields, rs) && AllRecords(fields, qs)
    requires Run(fields, rs, st).Ok? && Run(fields, qs, st).Ok?
    requires SameOutcome(Run(fields, Only(fields, rs, k), st), Run(fields, Only(fields, qs, k), st))
    ensures Agree(fields, Run(fields, rs, st).out, Run(fields, qs, st).out, k)
  {
    AgreeSelf(fields, st, k);
    Projection(fields, rs, st, st, k);
    Projection(fields, qs, st, st, k);
    var c := Run(fields, Only(fields, rs, k), st).out;
    AgreeSym(fields, Run(fields, qs, st).out, c, k);
    AgreeTrans(fields, Run(fields, rs, st).out, c, Run(fields, qs, st).out, k);
  }

  /** Agreement on every key is agreement. */
  lemma AgreeEverywhere(fields: seq<Field>, a: State, b: State)
    requires MsgOk(fields, a.msg) && MsgOk(fields, b.msg)
    requires forall k :: 0 <= k < |fields| ==> Agree(fields, a, b, k)
    ensures Identical(fields, a.msg, b.msg) && (AllSeen(fields, a.seen) <==> AllSeen(fields, b.seen))
  {
    assert |a.msg.slots| == |fields| && |b.msg.slots| == |fields|;
    hide MsgOk;
    forall i | 0 <= i < |fields| ensures AgreeAt(a, b, i) {
      assert Agree(fields, a, b, KeyOf(fields, i));
    }
    assert a.msg.slots == b.msg.slots by {
      forall i | 0 <= i < |fields| ensures a.msg.slots[i] == b.msg.slots[i] {
        assert AgreeAt(a, b, i);
      }
    }
    forall i | 0 <= i < |fields| ensures i in a.seen <==> i in b.seen {
      assert AgreeAt(a, b, i);
    }
    forall k | 0 <= k < |fields| ensures Which(a.msg, k) == Which(b.msg, k) {
      assert Agree(fields, a, b, k);
    }
  }

  lemma OutcomesAgree(fields: seq<Field>, rs: seq<seq<Byte>>, qs: seq<seq<Byte>>, st: State)
    requires FieldsOk(fields) && MsgOk(fields, st.msg) && AllRecords(fields, rs) && AllRecords(fields, qs)
    requires RunsAlike(fields, rs, qs, st) && Run(fields, rs, st).Ok? && Run(fields, qs, st).Ok?
    ensures var a, b := Run(fields, rs, st).out, Run(fields, qs, st).out;
            Identical(fields, a.msg, b.msg) && (AllSeen(fields, a.seen) <==> AllSeen(fields, b.seen))
  {
    forall k | 0 <= k < |fields| ensures Agree(fields, Run(fields, rs, st).out, Run(fields, qs, st).out, k) {
      OutcomesAgreeOn(fields, rs, qs, st, k);
    }
    AgreeEverywhere(fields, Run(fields, rs, st).out, Run(fields, qs, st).out);
  }

  lemma AgreeSym(fields: seq<Field>, a: State, b: State, k: nat)
    requires MsgOk(fields, a.msg) && MsgOk(fields, b.msg) && Agree(fields, a, b, k)
    ensures Agree(fields, b, a, k)
  {
    forall i | 0 <= i < |fields| && KeyOf(fields, i) == k ensures AgreeAt(b, a, i) {
      assert AgreeAt(a, b, i);
    }
  }

  /** What each field's own records do decides what the message becomes. */
  lemma OutcomeByKeys(fields: seq<Field>, rs: seq<seq<Byte>>, qs: seq<seq<Byte>>, m: Message)
    requires FieldsOk(fields) && MsgOk(fields, m) && AllRecords(fields, rs) && AllRecords(fields, qs)
    requires RunsAlike(fields, rs, qs, State(m, {}))
    ensures var x, y := DecMessage(fields, Concat(rs), m), DecMessage(fields, Concat(qs), m);
            && (x.Ok? <==> y.Ok?)
            && (x.Ok? ==> Identical(fields, x.out, y.out))
  {
    hide Run, DecLoop, RunsAlike, Identical, AllSeen, FieldsOk, MsgOk;
    var st := State(m, {});
    LoopIsRun(fields, rs, st);
    LoopIsRun(fields, qs, st);
    if Run(fields, rs, st).Ok? {
      SuccessCarries(fields, rs, qs, st);
      OutcomesAgree(fields, rs, qs, st);
    } else if Run(fields, qs, st).Ok? {
      RunsAlikeSym(fields, rs, qs, st);
      SuccessCarries(fields, qs, rs, st);
    }
  }

  lemma RunsAlikeSym(fields: seq<Field>, rs: seq<seq<Byte>>, qs: seq<seq<Byte>>, st: State)
    requires FieldsOk(fields) && MsgOk(fields, st.msg) && RunsAlike(fields, rs, qs, st)
    ensures RunsAlike(fields, qs, rs, st)
  {
  }

  /** Reordering records, and adding or dropping unknown ones, changes neither success nor the message as
    * long as every field and every union keeps its own subsequence. */
  lemma OrderIrrelevant(fields: seq<Field>, rs: seq<seq<Byte>>, qs: seq<seq<Byte>>, m: Message)
    requires FieldsOk(fields) && MsgOk(fields, m) && AllRecords(fields, rs) && AllRecords(fields, qs)
    requires SameSubsequences(fields, rs, qs)
    ensures var x, y := DecMessage(fields, Concat(rs), m), DecMessage(fields, Concat(qs), m);
            && (x.Ok? <==> y.Ok?)
            && (x.Ok? ==> Identical(fields, x.out, y.out))
  {
    OutcomeByKeys(fields, rs, qs, m);
  }

  lemma {:induction false} OnlyConcat(fields: seq<Field>, rs: seq<seq<Byte>>, qs: seq<seq<Byte>>, k: nat)
    ensures Only(fields, rs + qs, k) == Only(fields, rs, k) + Only(fields, qs, k)
  {
    hide Key;
    if rs == [] {
      assert rs + qs == qs;
      assert [] + Only(fields, qs, k) == Only(fields, qs, k);
    } else {
      assert (rs + qs)[1..] == rs[1..] + qs;
      OnlyConcat(fields, rs[1..], qs, k);
      var head := if Key(fields, rs[0]) == k then [rs[0]] else [];
      assert head + (Only(fields, rs[1..], k) + Only(fields, qs, k)) ==
               head + Only(fields, rs[1..], k) + Only(fields, qs, k);
    }
  }

  /** Adjacent records of different fields that do not share a union may be swapped. */
  lemma AdjacentSwap(fields: seq<Field>, pre: seq<seq<Byte>>, r: seq<Byte>, q: seq<Byte>, post: seq<seq<Byte>>,
                     m: Message)
    requires FieldsOk(fields) && MsgOk(fields, m)
    requires AllRecords(fields, pre) && AllRecords(fields, post) && IsRecord(fields, r) && IsRecord(fields, q)
    requires Key(fields, r) != Key(fields, q)
    ensures var x := DecMessage(fields, Concat(pre + [r, q] + post), m);
            var y := DecMessage(fields, Concat(pre + [q, r] + post), m);
            && (x.Ok? <==> y.Ok?)
            && (x.Ok? ==> Identical(fields, x.out, y.out))
  {
    hide Key, IsRecord;
    forall k | 0 <= k < |fields| ensures Only(fields, pre + [r, q] + post, k) == Only(fields, pre + [q, r] + post, k) {
      OnlyConcat(fields, pre + [r, q], post, k);
      OnlyConcat(fields, pre, [r, q], k);
      OnlyConcat(fields, pre + [q, r], post, k);
      OnlyConcat(fields, pre, [q, r], k);
      OnlyPair(fields, r, q, k);
    }
    OrderIrrelevant(fields, pre + [r, q] + post, pre + [q, r] + post, m);
  }

  lemma OnlyPair(fields: seq<Field>, r: seq<Byte>, q: seq<Byte>, k: nat)
    requires Key(fields, r) != Key(fields, q)
    ensures Only(fields, [r, q], k) == Only(fields, [q, r], k)
  {
    assert [r, q] == [r] + [q] && [q, r] == [q] + [r];
    OnlyConcat(fields, [r], [q], k);
    OnlyConcat(fields, [q], [r], k);
  }

  // ----- required fields

  /** Some record carries the tag of field i. */
  predicate Occurs(fields: seq<Field>, rs: seq<seq<Byte>>, i: nat)
    requires i < |fields|
  {
    exists j :: 0 <= j < |rs| && Carries(rs[j], fields[i].tag)
  }

  predicate Carries(r: seq<Byte>, tag: nat) { DecTag(r).Tag? && DecTag(r).tag == tag }

  lemma OccursFirst(fields: seq<Field>, rs: seq<seq<Byte>>, i: nat)
    requires i < |fields| && rs != []
    ensures Occurs(fields, rs, i) <==> Carries(rs[0], fields[i].tag) || Occurs(fields, rs[1..], i)
  {
    if Occurs(fields, rs, i) {
      var j :| 0 <= j < |rs| && Carries(rs[j], fields[i].tag);
      if j > 0 {
        assert Carries(rs[1..][j - 1], fields[i].tag);
      }
    }
    if Occurs(fields, rs[1..], i) {
      var j :| 0 <= j < |rs[1..]| && Carries(rs[1..][j], fields[i].tag);
      assert Carries(rs[j + 1], fields[i].tag);
    }
  }

  lemma {:induction false} SeenIsOccurrence(fields: seq<Field>, rs: seq<seq<Byte>>, st: State, i: nat)
    requires FieldsOk(fields) && MsgOk(fields, st.msg) && AllRecords(fields, rs) && i < |fields|
    requires fields[i].htype.Required?
    requires Run(fields, rs, st).Ok?
    ensures i in Run(fields, rs, st).out.seen <==> i in st.seen || Occurs(fields, rs, i)
  {
    if rs != [] {
      OccursFirst(fields, rs, i);
      assert IsRecord(fields, rs[0]);
      RecordLocal(fields, rs[0], [], st);
      LookupFinds(fields, i, DecTag(rs[0]).tag);
      var st' := DecRecord(fields, rs[0], st).st;
      SeenIsOccurrence(fields, rs[1..], st', i);
    }
  }

  /** When every record on the wire decodes, the message is accepted exactly when each required field
    * occurred at least once. */
  lemma RequiredIsExact(fields: seq<Field>, rs: seq<seq<Byte>>, m: Message)
    requires FieldsOk(fields) && MsgOk(fields, m) && AllRecords(fields, rs)
    requires DecLoop(fields, Concat(rs), State(m, {})).Ok?
    ensures DecMessage(fields, Concat(rs), m).Ok? <==>
            forall i :: 0 <= i < |fields| && fields[i].htype.Required? ==> Occurs(fields, rs, i)
  {
    var st := State(m, {});
    LoopIsRun(fields, rs, st);
    hide Occurs, Run, DecLoop;
    forall i | 0 <= i < |fields| && fields[i].htype.Required?
      ensures i in Run(fields, rs, st).out.seen <==> Occurs(fields, rs, i)
    {
      SeenIsOccurrence(fields, rs, st, i);
    }
  }
}
