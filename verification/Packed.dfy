/** Packed and unpacked encodings of a repeated field are interchangeable. */
module Packed {
  import opened Wire
  import opened Descriptors
  import opened DecodeSpec
  import opened EncodeSpec
  import opened Records
  import opened Order

  predicate IsPackable(f: Field) { FieldOk(f) && f.htype.Repeated? && f.ltype.Packable() }

  /** A string of complete elements. */
  predicate Whole(f: Field, p: seq<Byte>)
    decreases |p|
  {
    p == [] || (LeafExtent(f, p).Rest? && Whole(f, LeafExtent(f, p).bytes))
  }

  predicate Accepts(e: Elements) { e.good && e.left == 0 }

  /** Decoding elements is decoding a prefix of them, then the others. */
  lemma {:induction false} ElementsSplit(f: Field, p: seq<Byte>, q: seq<Byte>, count: nat, items: seq<Value>)
    requires IsPackable(f) && Whole(f, p) && |items| == f.arraySize && ItemsOk(f, items)
    ensures var e, whole := DecElements(f, p, count, items), DecElements(f, p + q, count, items);
            if Accepts(e) then whole == DecElements(f, q, e.count, e.items) else !Accepts(whole)
    decreases |p|
  {
    if p == [] {
      NilLeft(q);
    } else if count < f.arraySize {
      LeafLocal(f, p, q, items[count]);
      hide DecLeaf, LeafExtent, ValueOk, FieldOk;
      match DecLeaf(f, p, items[count])
      case Failed(_, _) =>
      case Done(v, rest) => ElementsSplit(f, rest, q, count + 1, items[count := v]);
    }
  }

  // ----- records of one array

  /** A record of field i: packed with complete elements, or one element. */
  predicate ArrayRecord(fields: seq<Field>, i: nat, r: seq<Byte>)
    requires i < |fields|
  {
    match DecTag(r)
    case Tag(wt, tag, rest) =>
      && tag == fields[i].tag && tag != 0
      && if wt.WtString?
          then DecPiece(rest).Piece? && DecPiece(rest).rest == [] && Whole(fields[i], DecPiece(rest).payload)
         else LeafExtent(fields[i], rest) == Rest([])
    case _ => false
  }

  /** The elements a record carries. */
  function Content(r: seq<Byte>): seq<Byte> {
    match DecTag(r)
    case Tag(wt, _, rest) =>
      if !wt.WtString? then rest else (match DecPiece(rest) case Piece(p, _) => p case NoPiece => [])
    case _ => []
  }

  function Contents(rs: seq<seq<Byte>>): seq<Byte> {
    if rs == [] then [] else Content(rs[0]) + Contents(rs[1..])
  }

  predicate ArrayRecords(fields: seq<Field>, i: nat, rs: seq<seq<Byte>>)
    requires i < |fields|
  {
    forall j :: 0 <= j < |rs| ==> ArrayRecord(fields, i, rs[j])
  }

  function Filled(st: State, i: nat, e: Elements): State
    requires i < |st.msg.slots|
  {
    State(Message(st.msg.slots[i := Many(e.count, e.items)], st.msg.which), st.seen)
  }

  lemma FilledTwice(st: State, i: nat, a: Elements, b: Elements)
    requires i < |st.msg.slots|
    ensures Filled(Filled(st, i, a), i, b) == Filled(st, i, b)
  {
  }

  lemma OneElement(f: Field, s: seq<Byte>, count: nat, items: seq<Value>)
    requires IsPackable(f) && LeafExtent(f, s) == Rest([]) && |items| == f.arraySize && ItemsOk(f, items)
    ensures Whole(f, s) && s != []
    ensures count >= f.arraySize ==> !Accepts(DecElements(f, s, count, items))
    ensures count < f.arraySize ==>
              var d := DecLeaf(f, s, items[count]);
              if d.Done? then
                d.rest == [] && DecElements(f, s, count, items) == Elements(count + 1, items[count := d.v], 0, true)
              else !Accepts(DecElements(f, s, count, items))
  {
    if count < f.arraySize {
      LeafLocal(f, s, [], items[count]);
    }
  }

  /** The slot after a record's payload, packed or not. */
  lemma SlotStep(f: Field, wt: WireType, s: seq<Byte>, slot: Slot)
    requires IsPackable(f) && SlotOk(f, slot)
    requires if wt.WtString? then DecPiece(s).Piece? && DecPiece(s).rest == [] else LeafExtent(f, s) == Rest([])
    ensures Extent(f, wt, s) == Rest([])
    ensures var e := DecElements(f, if wt.WtString? then DecPiece(s).payload else s, slot.count, slot.items);
            if Accepts(e) then DecSlot(f, wt, s, slot) == Ok(Many(e.count, e.items), [])
            else DecSlot(f, wt, s, slot).Err?
  {
    hide DecLeaf, LeafExtent, ValueOk;
    if !wt.WtString? {
      OneElement(f, s, slot.count, slot.items);
    }
  }

  /** One record of the array decodes its elements in order or fails. */
  lemma ArrayStep(fields: seq<Field>, i: nat, r: seq<Byte>, st: State)
    requires FieldsOk(fields) && MsgOk(fields, st.msg) && i < |fields| && IsPackable(fields[i])
    requires ArrayRecord(fields, i, r)
    requires SlotOk(fields[i], st.msg.slots[i])
    ensures Whole(fields[i], Content(r)) && IsRecord(fields, r)
    ensures var e := DecElements(fields[i], Content(r), st.msg.slots[i].count, st.msg.slots[i].items);
            if Accepts(e) then DecRecord(fields, r, st) == More(Filled(st, i, e), [])
            else DecRecord(fields, r, st).Fail?
  {
    var f, slot := fields[i], st.msg.slots[i];
    var Tag(wt, tag, rest) := DecTag(r);
    LookupFinds(fields, i, tag);
    SlotStep(f, wt, rest, slot);
    if !wt.WtString? {
      OneElement(f, rest, slot.count, slot.items);
    }
    hide DecTag, DecPiece, LeafExtent, Extent, DecElements, DecSlot, Whole, SlotOk, MsgOk, FieldOk, Accepts;
  }

  /** Whatever mix of packed and single records carries the elements, the outcome is that of decoding
    * the elements themselves: all succeed and append in order, or the run fails. */
  lemma {:induction false} ArrayRun(fields: seq<Field>, i: nat, rs: seq<seq<Byte>>, st: State)
    requires FieldsOk(fields) && MsgOk(fields, st.msg) && i < |fields| && IsPackable(fields[i])
    requires ArrayRecords(fields, i, rs)
    requires SlotOk(fields[i], st.msg.slots[i])
    ensures var e := DecElements(fields[i], Contents(rs), st.msg.slots[i].count, st.msg.slots[i].items);
            if Accepts(e) then Run(fields, rs, st) == Ok(Filled(st, i, e), []) else Run(fields, rs, st).Err?
  {
    var f, slot := fields[i], st.msg.slots[i];
    if rs == [] {
      assert st.msg.slots[i := slot] == st.msg.slots;
    } else {
      ArrayStep(fields, i, rs[0], st);
      var e := DecElements(f, Content(rs[0]), slot.count, slot.items);
      ElementsSplit(f, Content(rs[0]), Contents(rs[1..]), slot.count, slot.items);
      hide DecElements, DecRecord, Content, Whole, SlotOk, FieldOk, ArrayRecord;
      if Accepts(e) {
        var e' := DecElements(f, Contents(rs[1..]), e.count, e.items);
        FilledTwice(st, i, e, e');
        ArrayRun(fields, i, rs[1..], Filled(st, i, e));
      }
    }
  }

  lemma RecordsOnly(fields: seq<Field>, i: nat, rs: seq<seq<Byte>>, st: State)
    requires FieldsOk(fields) && MsgOk(fields, st.msg) && i < |fields| && IsPackable(fields[i])
    requires ArrayRecords(fields, i, rs)
    requires SlotOk(fields[i], st.msg.slots[i])
    ensures AllRecords(fields, rs)
  {
    forall j | 0 <= j < |rs| ensures IsRecord(fields, rs[j]) {
      ArrayStep(fields, i, rs[j], st);
    }
  }

  /** Two ways of packing the same elements decode alike. */
  lemma PackingIrrelevant(fields: seq<Field>, i: nat, rs: seq<seq<Byte>>, qs: seq<seq<Byte>>, st: State)
    requires FieldsOk(fields) && MsgOk(fields, st.msg) && i < |fields| && IsPackable(fields[i])
    requires ArrayRecords(fields, i, rs) && ArrayRecords(fields, i, qs) && Contents(rs) == Contents(qs)
    ensures var x, y := DecLoop(fields, Concat(rs), st), DecLoop(fields, Concat(qs), st);
            (x.Ok? <==> y.Ok?) && (x.Ok? ==> x == y)
  {
    assert SlotOk(fields[i], st.msg.slots[i]);
    RecordsOnly(fields, i, rs, st);
    RecordsOnly(fields, i, qs, st);
    ArrayRun(fields, i, rs, st);
    ArrayRun(fields, i, qs, st);
    LoopIsRun(fields, rs, st);
    LoopIsRun(fields, qs, st);
  }

  // ----- whole messages

  /** The two record strings cut the same elements of array k into records differently. */
  predicate Repacked(fields: seq<Field>, rs: seq<seq<Byte>>, qs: seq<seq<Byte>>, k: nat)
    requires k < |fields|
  {
    && IsPackable(fields[k])
    && ArrayRecords(fields, k, Only(fields, rs, k)) && ArrayRecords(fields, k, Only(fields, qs, k))
    && Contents(Only(fields, rs, k)) == Contents(Only(fields, qs, k))
  }

  /** Every field and every union keeps its own records, but arrays may have been packed, unpacked or cut
    * otherwise. */
  predicate SameUpToPacking(fields: seq<Field>, rs: seq<seq<Byte>>, qs: seq<seq<Byte>>) {
    forall k :: 0 <= k < |fields| ==> Only(fields, rs, k) == Only(fields, qs, k) || Repacked(fields, rs, qs, k)
  }

  lemma RepackedAlike(fields: seq<Field>, rs: seq<seq<Byte>>, qs: seq<seq<Byte>>, k: nat, st: State)
    requires FieldsOk(fields) && MsgOk(fields, st.msg) && k < |fields| && Repacked(fields, rs, qs, k)
    ensures SameOutcome(Run(fields, Only(fields, rs, k), st), Run(fields, Only(fields, qs, k), st))
  {
    assert SlotOk(fields[k], st.msg.slots[k]);
    hide Run, Only, DecElements, Contents, ArrayRecords, FieldsOk, FieldOk, SlotOk, MsgOk;
    ArrayRun(fields, k, Only(fields, rs, k), st);
    ArrayRun(fields, k, Only(fields, qs, k), st);
  }

  /** Neither the order between fields nor the packing of arrays matters to the message, in any mixture. */
  lemma WireFormIrrelevant(fields: seq<Field>, rs: seq<seq<Byte>>, qs: seq<seq<Byte>>, m: Message)
    requires FieldsOk(fields) && MsgOk(fields, m) && AllRecords(fields, rs) && AllRecords(fields, qs)
    requires SameUpToPacking(fields, rs, qs)
    ensures var x, y := DecMessage(fields, Concat(rs), m), DecMessage(fields, Concat(qs), m);
            && (x.Ok? <==> y.Ok?)
            && (x.Ok? ==> Identical(fields, x.out, y.out))
  {
    hide Run, Only, DecMessage, Repacked, Identical, FieldsOk, MsgOk;
    var st := State(m, {});
    forall k | 0 <= k < |fields|
      ensures SameOutcome(Run(fields, Only(fields, rs, k), st), Run(fields, Only(fields, qs, k), st))
    {
      if Only(fields, rs, k) != Only(fields, qs, k) {
        RepackedAlike(fields, rs, qs, k, st);
      }
    }
    OutcomeByKeys(fields, rs, qs, m);
  }

  /** A successful run never leaves more elements than the array holds. */
  lemma {:induction false} ElementsFit(f: Field, p: seq<Byte>, count: nat, items: seq<Value>)
    requires IsPackable(f) && |items| == f.arraySize && ItemsOk(f, items) && count <= f.arraySize
    ensures count <= DecElements(f, p, count, items).count <= f.arraySize
    decreases |p|
  {
    hide DecLeaf, ValueOk, FieldOk;
    if p != [] && count < f.arraySize {
      match DecLeaf(f, p, items[count])
      case Done(v, rest) => ElementsFit(f, rest, count + 1, items[count := v]);
      case Failed(_, _) =>
    }
  }

  /** Items that are there stay, whether or not the payload is accepted. */
  lemma {:induction false} ElementsKeep(f: Field, p: seq<Byte>, count: nat, items: seq<Value>, k: nat)
    requires IsPackable(f) && |items| == f.arraySize && ItemsOk(f, items) && k < count && k < |items|
    ensures DecElements(f, p, count, items).items[k] == items[k]
    decreases |p|
  {
    hide DecLeaf, ValueOk, FieldOk;
    if p != [] && count < f.arraySize {
      match DecLeaf(f, p, items[count])
      case Done(v, rest) => ElementsKeep(f, rest, count + 1, items[count := v], k);
      case Failed(_, _) =>
    }
  }
}
