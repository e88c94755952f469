/** What the emptiness test of proto3-style fields looks at: every leaf that is reached through messages and
  * through the first items of arrays, whether or not it is present. */
module Emptiness {
  import opened Descriptors
  import opened EncodeSpec

  /** A place in memory and the descriptor of what it holds. */
  datatype Place = Place(f: Field, v: Value)
  {
    predicate Ok() { FieldOk(f) && ValueOk(f, v) }
  }

  /** There is data to look at. An array without items has none. */
  predicate HasData(s: Slot) { s.Many? ==> s.items != [] }

  function Data(s: Slot): Value
    requires HasData(s)
  {
    if s.Many? then s.items[0] else s.v
  }

  lemma MemberOk(fields: seq<Field>, m: Message, i: nat)
    requires FieldsOk(fields) && MsgOk(fields, m) && i < |fields|
    ensures FieldOk(fields[i]) && SlotOk(fields[i], m.slots[i])
    ensures HasData(m.slots[i]) ==> ValueOk(fields[i], Data(m.slots[i]))
  {
  }

  predicate HasMember(p: Place, i: nat)
    requires p.Ok()
  {
    && p.f.ltype.Submessage? && i < |p.f.ltype.fields|
    && (assert MsgOk(p.f.ltype.fields, p.v.msg); HasData(p.v.msg.slots[i]))
  }

  function Member(p: Place, i: nat): (q: Place)
    requires p.Ok() && HasMember(p, i)
    ensures q.Ok()
  {
    assert TypeOk(p.f) && MsgOk(p.f.ltype.fields, p.v.msg);
    MemberOk(p.f.ltype.fields, p.v.msg, i);
    var f, s := p.f.ltype.fields[i], p.v.msg.slots[i];
    Place(f, Data(s))
  }

  /** The field numbers, from message to message, lead to a leaf. */
  predicate Leads(p: Place, path: seq<nat>)
    requires p.Ok()
    decreases |path|
  {
    if path == [] then !p.f.ltype.Submessage?
    else HasMember(p, path[0]) && Leads(Member(p, path[0]), path[1..])
  }

  function LeafAt(p: Place, path: seq<nat>): (q: Place)
    requires p.Ok() && Leads(p, path)
    ensures q.Ok() && !q.f.ltype.Submessage?
    decreases |path|
  {
    if path == [] then p else LeafAt(Member(p, path[0]), path[1..])
  }

  /** The number 0, no bytes, a string that ends at once, or a fixed length of 0. */
  predicate Blank(p: Place)
    requires p.Ok() && !p.f.ltype.Submessage?
  {
    assert TypeOk(p.f);
    if p.f.ltype.Bytes? then p.v.size == 0
    else if p.f.ltype.String? then p.v.buf[0] == 0
    else if p.f.ltype.FixedLengthBytes? then p.f.dataSize == 0
    else p.v.i == 0
  }

  ghost predicate AllBlank(p: Place)
    requires p.Ok()
  {
    forall path: seq<nat> :: Leads(p, path) ==> Blank(LeafAt(p, path))
  }

  lemma {:induction false} ZeroLeaf(p: Place, path: seq<nat>)
    requires p.Ok() && IsZero(p.f, p.v) && Leads(p, path)
    ensures Blank(LeafAt(p, path))
    decreases |path|
  {
    assert TypeOk(p.f);
    if path != [] {
      var i := path[0];
      assert MsgOk(p.f.ltype.fields, p.v.msg) && SlotOk(p.f.ltype.fields[i], p.v.msg.slots[i]);
      assert ZeroData(p.f.ltype.fields[i], p.v.msg.slots[i]);
      ZeroLeaf(Member(p, i), path[1..]);
    }
  }

  lemma {:induction false} NonzeroLeaf(p: Place) returns (path: seq<nat>)
    requires p.Ok() && !IsZero(p.f, p.v)
    ensures Leads(p, path) && !Blank(LeafAt(p, path))
    decreases p.f
  {
    assert TypeOk(p.f);
    path := [];
    if p.f.ltype.Submessage? {
      var fields, m := p.f.ltype.fields, p.v.msg;
      assert FieldsOk(fields) && MsgOk(fields, m);
      var i: nat :| i < |fields| && !ZeroData(fields[i], m.slots[i]);
      var rest := NonzeroLeaf(Member(p, i));
      path := [i] + rest;
      assert path[1..] == rest;
    }
  }

  lemma ZeroIsAllBlank(f: Field, v: Value)
    requires FieldOk(f) && ValueOk(f, v)
    ensures IsZero(f, v) <==> AllBlank(Place(f, v))
  {
    var p := Place(f, v);
    if IsZero(f, v) {
      forall path: seq<nat> | Leads(p, path) ensures Blank(LeafAt(p, path)) {
        ZeroLeaf(p, path);
      }
    } else {
      var path := NonzeroLeaf(p);
      assert !Blank(LeafAt(p, path));
    }
  }

  /** A proto3-style field is left out exactly when all leaves are blank. */
  lemma LeftOutIffBlank(f: Field, v: Value)
    requires FieldOk(f) && f.Singular() && ValueOk(f, v)
    ensures EncSlot(f, One(v), false) == Wrote([]) <==> AllBlank(Place(f, v))
  {
    hide EncValue, AllBlank, IsZero;
    ZeroIsAllBlank(f, v);
  }
}
