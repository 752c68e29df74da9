/** What the audit of `tools/update_schema.py` lets through: for every accepted pair of shapes
    and every payload, exactly when the newer reader agrees with the old one. */
module SchemaAlias {
  import opened Wrappers
  import opened Bytes
  import opened Serialize
  import opened Schema
  import opened SchemaAudit

  /** `newFields` with every matched field as the old shape has it: the two differ only where a
      field changed between vector and single value. */
  function Aligned(oldFields: seq<Field>, newFields: seq<Field>): (r: seq<Field>)
    ensures |r| == |newFields|
    ensures forall j :: 0 <= j < |newFields| ==> SameButVector(r[j], newFields[j])
  {
    if newFields == [] then []
    else if oldFields != [] && FromCtor(oldFields[0]) == FromCtor(newFields[0]) then
      [oldFields[0]] + Aligned(oldFields[1..], newFields[1..])
    else [newFields[0]] + Aligned(oldFields, newFields[1..])
  }

  predicate SameButVector(a: Field, b: Field) {
    a.name == b.name && a.ty == b.ty && a.cond == b.cond
  }

  lemma {:induction false} AlignedEmbeds(oldFields: seq<Field>, newFields: seq<Field>)
    requires Embeds(Shapes(FromCtor, oldFields), Shapes(FromCtor, newFields))
    ensures EmbedsFields(oldFields, Aligned(oldFields, newFields))
  {
    EmbedsStep(oldFields, newFields);
    hide Embeds, Shapes;
    if newFields != [] {
      if oldFields != [] && FromCtor(oldFields[0]) == FromCtor(newFields[0]) {
        AlignedEmbeds(oldFields[1..], newFields[1..]);
        assert Aligned(oldFields, newFields)[1..] == Aligned(oldFields[1..], newFields[1..]);
      } else {
        AlignedEmbeds(oldFields, newFields[1..]);
        assert Aligned(oldFields, newFields)[1..] == Aligned(oldFields, newFields[1..]);
      }
    }
  }

  /** One step of the comparison, on fields. */
  lemma EmbedsStep(oldFields: seq<Field>, newFields: seq<Field>)
    requires Embeds(Shapes(FromCtor, oldFields), Shapes(FromCtor, newFields))
    ensures if newFields == [] then oldFields == []
            else if oldFields != [] && FromCtor(oldFields[0]) == FromCtor(newFields[0]) then
              Embeds(Shapes(FromCtor, oldFields[1..]), Shapes(FromCtor, newFields[1..]))
            else newFields[0].cond.Some? && Embeds(Shapes(FromCtor, oldFields), Shapes(FromCtor, newFields[1..]))
  {
    if newFields != [] {
      assert Shapes(FromCtor, newFields[1..]) == Shapes(FromCtor, newFields)[1..];
      if oldFields != [] {
        assert Shapes(FromCtor, oldFields[1..]) == Shapes(FromCtor, oldFields)[1..];
      }
    }
  }

  lemma {:induction false} AlignedFrom(oldFields: seq<Field>, newFields: seq<Field>)
    ensures forall f :: f in Aligned(oldFields, newFields) ==> f in oldFields || f in newFields
  {
    if newFields != [] {
      if oldFields != [] && FromCtor(oldFields[0]) == FromCtor(newFields[0]) {
        AlignedFrom(oldFields[1..], newFields[1..]);
      } else {
        AlignedFrom(oldFields, newFields[1..]);
      }
    }
  }

  lemma {:induction false} AlignedReads(g: Globals, oldFields: seq<Field>, newFields: seq<Field>, k: nat)
    requires k <= |newFields| && AllReadStmts(g, newFields, k).Some?
    requires forall f :: f in oldFields ==> ReadStmts(g, f).Some?
    requires forall f :: f in Aligned(oldFields, newFields) ==> f in oldFields || f in newFields
    requires forall f :: f in newFields ==> ReadStmts(g, f).Some?
    ensures AllReadStmts(g, Aligned(oldFields, newFields), k).Some?
    decreases |newFields| - k
  {
    if k < |newFields| {
      AlignedReads(g, oldFields, newFields, k + 1);
      assert Aligned(oldFields, newFields)[k] in Aligned(oldFields, newFields);
    }
  }

  lemma {:induction false} FieldReads(g: Globals, fields: seq<Field>, k: nat, m: nat)
    requires k <= m < |fields| && AllReadStmts(g, fields, k).Some?
    ensures ReadStmts(g, fields[m]).Some?
    decreases m - k
  {
    if k < m {
      FieldReads(g, fields, k + 1, m);
    }
  }

  lemma {:induction false} AlignedWords(a: seq<Field>, b: seq<Field>)
    requires |a| == |b| && forall j :: 0 <= j < |b| ==> SameButVector(a[j], b[j])
    ensures DeclaredWords(a) == DeclaredWords(b)
  {
    if a != [] {
      AlignedWords(a[1..], b[1..]);
    }
  }

  // ---- a value shows whether its field is a vector ----

  /** The values a field that is neither a flag nor a flag word can be read as. */
  predicate OfKind(f: Field, x: Value) {
    if f.cond.Some? then x == VNone || (x.VSome? && x.value.VVec? == f.isVector) else x.VVec? == f.isVector
  }

  predicate Plain(f: Field) {
    f.ty != True && f.ty != Hash
  }

  lemma SingleKind(g: Globals, e: RExpr, data: seq<byte>, pos: nat)
    ensures var r := ReadExpr(g, e, data, pos); r.Got? ==> !r.value.VVec? && r.value != VNone
  {
    if e.RNamed? {
      NamedKind(g, e.t, data, pos);
    }
  }

  lemma NamedKind(g: Globals, t: string, data: seq<byte>, pos: nat)
    ensures ReadNamed(g, t, data, pos).Got? ==> ReadNamed(g, t, data, pos).value.VStruct?
  {
    if t in g.types && GetU32(data, pos).Got? {
      var arm := FindArm(g, t, 0, GetU32(data, pos).value);
      if arm.Some? {
        assert ReadCtor(g, arm.value, data, pos + 4).Got? ==> ReadCtor(g, arm.value, data, pos + 4).value.VStruct?;
      }
    }
  }

  lemma VectorRead(g: Globals, name: string, e: RExpr, env: Env, data: seq<byte>, pos: nat)
    requires name != COUNTER && ExecBody(g, VectorStmts(name, e), env, data, pos).Got?
    ensures var r := ExecBody(g, VectorStmts(name, e), env, data, pos).value; name in r && r[name].VVec?
  {
    var body := VectorStmts(name, e);
    assert body[1..] == [LetEmpty(name), PushAll(COUNTER, name, e)];
    assert body[1..][1..] == [PushAll(COUNTER, name, e)] && body[1..][1..][1..] == [];
    var a := ExecSimple(g, body[0], env, data, pos);
    var b := ExecSimple(g, body[1], a.value, data, a.next);
    assert ExecBody(g, body, env, data, pos) == ExecBody(g, body[1..], a.value, data, a.next);
    assert ExecBody(g, body, env, data, pos) == ExecBody(g, body[1..][1..], b.value, data, b.next);
    var c := ExecSimple(g, body[2], b.value, data, b.next);
    assert c.Got? && ExecBody(g, [], c.value, data, c.next) == Got(c.value, c.next);
  }

  lemma SingleRead(g: Globals, name: string, e: RExpr, env: Env, data: seq<byte>, pos: nat)
    requires ExecBody(g, [Let(name, e)], env, data, pos).Got?
    ensures var r := ExecBody(g, [Let(name, e)], env, data, pos).value; name in r && !r[name].VVec? && r[name] != VNone
  {
    assert [Let(name, e)][1..] == [];
    SingleKind(g, e, data, pos);
  }

  lemma BodyKind(g: Globals, f: Field, env: Env, data: seq<byte>, pos: nat)
    requires Plain(f) && f.name != COUNTER && GenFieldRead(g, f).Some?
    requires ExecBody(g, GenFieldRead(g, f).value, env, data, pos).Got?
    ensures var r := ExecBody(g, GenFieldRead(g, f).value, env, data, pos).value;
            f.name in r && r[f.name].VVec? == f.isVector
  {
    var body := GenFieldRead(g, f).value;
    hide ExecBody;
    if f.isVector {
      assert body[2].PushAll? && body == VectorStmts(f.name, body[2].e);
      VectorRead(g, f.name, body[2].e, env, data, pos);
    } else {
      assert body[0].Let? && body == [Let(f.name, body[0].e)];
      SingleRead(g, f.name, body[0].e, env, data, pos);
    }
  }

  lemma {:induction false} LiftRuns(g: Globals, body: seq<Simple>, env: Env, data: seq<byte>, pos: nat)
    ensures ExecRead(g, Lift(body), env, data, pos) == ExecBody(g, body, env, data, pos)
    decreases |body|
  {
    if body != [] {
      assert Lift(body)[1..] == Lift(body[1..]) && Lift(body)[0] == Do(body[0]);
      var a := ExecSimple(g, body[0], env, data, pos);
      if a.Got? {
        LiftRuns(g, body[1..], a.value, data, a.next);
      }
    }
  }

  lemma FieldKind(g: Globals, f: Field, env: Env, data: seq<byte>, pos: nat)
    requires Plain(f) && f.name != COUNTER && ReadStmts(g, f).Some?
    requires ExecRead(g, ReadStmts(g, f).value, env, data, pos).Got?
    ensures var r := ExecRead(g, ReadStmts(g, f).value, env, data, pos).value; f.name in r && OfKind(f, r[f.name])
  {
    var body := GenFieldRead(g, f).value;
    if f.cond.Some? {
      ConditionalRuns(g, f, env, data, pos);
      if Bit(env[f.cond.value.word].w, f.cond.value.bit) {
        BodyKind(g, f, env, data, pos);
      }
    } else {
      LiftRuns(g, body, env, data, pos);
      BodyKind(g, f, env, data, pos);
    }
  }

  /** What the read of a conditional field comes to. */
  lemma ConditionalRuns(g: Globals, f: Field, env: Env, data: seq<byte>, pos: nat)
    requires Plain(f) && f.cond.Some? && ReadStmts(g, f).Some?
    ensures GenFieldRead(g, f).Some?
    ensures ExecRead(g, ReadStmts(g, f).value, env, data, pos).Got? ==>
              f.cond.value.word in env && env[f.cond.value.word].VI32?
    ensures var r := ExecRead(g, ReadStmts(g, f).value, env, data, pos);
            f.cond.value.word in env && env[f.cond.value.word].VI32? ==>
              if Bit(env[f.cond.value.word].w, f.cond.value.bit) then
                r.Got? ==> var inner := ExecBody(g, GenFieldRead(g, f).value, env, data, pos);
                           inner.Got? && f.name in inner.value
                           && r == Got(env[f.name := VSome(inner.value[f.name])], inner.next)
              else r == Got(env[f.name := VNone], pos)
  {
    var stmts := ReadStmts(g, f).value;
    hide ExecBody, GenFieldRead;
    assert stmts[1..] == [];
    var one := ExecRead1(g, stmts[0], env, data, pos);
    if one.Got? {
      assert ExecRead(g, [], one.value, data, one.next) == Got(one.value, one.next);
      assert ExecRead(g, stmts, env, data, pos) == Got(one.value, one.next);
    } else {
      assert ExecRead(g, stmts, env, data, pos).Fail?;
    }
  }

  /** Names that no later field takes: each name once, flag words unconditional, `n` not a
      flag word. */
  ghost predicate Orderly(fields: seq<Field>) {
    DistinctNames(fields) && forall f :: f in fields && f.ty == Hash ==> f.cond.None? && f.name != COUNTER
  }

  /** After the whole run, field `m` is of its kind. */
  lemma {:induction false} RunKind(g: Globals, fields: seq<Field>, k: nat, m: nat, env: Env, data: seq<byte>, pos: nat)
    requires k <= m < |fields| && AllReadStmts(g, fields, k).Some? && Orderly(fields)
    requires Plain(fields[m]) && fields[m].name != COUNTER
    requires ExecRead(g, AllReadStmts(g, fields, k).value, env, data, pos).Got?
    ensures var r := ExecRead(g, AllReadStmts(g, fields, k).value, env, data, pos).value;
            fields[m].name in r && OfKind(fields[m], r[fields[m].name])
    decreases m - k
  {
    ReadSplit(g, fields, k, env, data, pos);
    var a := ExecRead(g, ReadStmts(g, fields[k]).value, env, data, pos);
    if k < m {
      hide ExecRead, AllReadStmts, ReadStmts, OfKind;
      RunKind(g, fields, k + 1, m, a.value, data, a.next);
    } else {
      FieldKind(g, fields[m], env, data, pos);
      FieldsStep(g, fields, k + 1, a.value, data, a.next, fields[m].name);
    }
  }

  // ---- where a vector change cannot be seen ----

  /** Field `j` changed between vector and single value, and is read differently. */
  predicate Changed(a: seq<Field>, b: seq<Field>, j: nat)
    requires |a| == |b|
  {
    j < |b| && Plain(b[j]) && a[j].isVector != b[j].isVector
  }

  /** Fields that differ in vector-ness only are read alike when they are flags or flag words,
      or absent. */
  lemma SameField(g: Globals, a: Field, b: Field, env: Env, data: seq<byte>, pos: nat)
    requires SameButVector(a, b) && ReadStmts(g, a).Some? && ReadStmts(g, b).Some?
    requires ExecRead(g, ReadStmts(g, a).value, env, data, pos).Got?
    requires Plain(b) && a.isVector != b.isVector ==>
               b.cond.Some?
               && var r := ExecRead(g, ReadStmts(g, a).value, env, data, pos).value;
                  b.name in r && r[b.name] == VNone
    ensures ExecRead(g, ReadStmts(g, b).value, env, data, pos) == ExecRead(g, ReadStmts(g, a).value, env, data, pos)
  {
    if Plain(b) && a.isVector != b.isVector {
      ConditionalRuns(g, a, env, data, pos);
      ConditionalRuns(g, b, env, data, pos);
    } else if Plain(b) {
      assert a == b;
    }
  }

  predicate SameButVectors(a: seq<Field>, b: seq<Field>) {
    |a| == |b| && forall j :: 0 <= j < |b| ==> SameButVector(a[j], b[j])
  }

  /** From field `k` on, every changed field is absent at the end of a run. */
  ghost predicate ChangedAbsent(a: seq<Field>, b: seq<Field>, k: nat, r: Env)
    requires |a| == |b|
  {
    forall j :: k <= j < |b| && Changed(a, b, j) ==> b[j].name != COUNTER && b[j].name in r && r[b[j].name] == VNone
  }

  lemma {:induction false} SameRun(g: Globals, a: seq<Field>, b: seq<Field>, k: nat, env: Env, data: seq<byte>,
                                   pos: nat)
    requires k <= |a| == |b| && SameButVectors(a, b)
    requires AllReadStmts(g, a, k).Some? && AllReadStmts(g, b, k).Some? && Orderly(a)
    requires ExecRead(g, AllReadStmts(g, a, k).value, env, data, pos).Got?
    requires ChangedAbsent(a, b, k, ExecRead(g, AllReadStmts(g, a, k).value, env, data, pos).value)
    ensures ExecRead(g, AllReadStmts(g, b, k).value, env, data, pos)
            == ExecRead(g, AllReadStmts(g, a, k).value, env, data, pos)
    decreases |a| - k
  {
    hide ExecRead, AllReadStmts, ReadStmts, Orderly, SameButVectors, ChangedAbsent;
    SameLengths(a, b);
    if k < |a| {
      ReadSplit(g, a, k, env, data, pos);
      ReadSplit(g, b, k, env, data, pos);
      SameHere(g, a, b, k, env, data, pos);
      LaterAbsent(a, b, k, ExecRead(g, AllReadStmts(g, a, k).value, env, data, pos).value);
      var s := ExecRead(g, ReadStmts(g, a[k]).value, env, data, pos);
      SameRun(g, a, b, k + 1, s.value, data, s.next);
    } else {
      NothingLeft(g, a, b);
    }
  }

  lemma NothingLeft(g: Globals, a: seq<Field>, b: seq<Field>)
    ensures AllReadStmts(g, a, |a|) == AllReadStmts(g, b, |b|)
  {
  }

  lemma LaterAbsent(a: seq<Field>, b: seq<Field>, k: nat, r: Env)
    requires |a| == |b| && ChangedAbsent(a, b, k, r)
    ensures ChangedAbsent(a, b, k + 1, r)
  {
  }

  lemma SameLengths(a: seq<Field>, b: seq<Field>)
    requires SameButVectors(a, b)
    ensures |a| == |b|
  {
  }

  lemma SameHere(g: Globals, a: seq<Field>, b: seq<Field>, k: nat, env: Env, data: seq<byte>, pos: nat)
    requires k < |a| && SameButVectors(a, b)
    requires AllReadStmts(g, a, k).Some? && AllReadStmts(g, b, k).Some? && Orderly(a)
    requires ExecRead(g, AllReadStmts(g, a, k).value, env, data, pos).Got?
    requires ChangedAbsent(a, b, k, ExecRead(g, AllReadStmts(g, a, k).value, env, data, pos).value)
    ensures ReadStmts(g, a[k]).Some? && ReadStmts(g, b[k]).Some?
    ensures ExecRead(g, ReadStmts(g, b[k]).value, env, data, pos)
            == ExecRead(g, ReadStmts(g, a[k]).value, env, data, pos)
  {
    ReadSplit(g, a, k, env, data, pos);
    ReadSplit(g, b, k, env, data, pos);
    assert SameButVector(a[k], b[k]);
    hide ExecRead, AllReadStmts, ReadStmts, SameButVectors;
    if Changed(a, b, k) {
      AbsentHere(g, a, k, env, data, pos);
    }
    hide Orderly, ChangedAbsent;
    SameField(g, a[k], b[k], env, data, pos);
  }

  /** A field absent at the end of the run was absent when it was read. */
  lemma AbsentHere(g: Globals, a: seq<Field>, k: nat, env: Env, data: seq<byte>, pos: nat)
    requires k < |a| && AllReadStmts(g, a, k).Some? && Orderly(a) && Plain(a[k]) && a[k].name != COUNTER
    requires ExecRead(g, AllReadStmts(g, a, k).value, env, data, pos).Got?
    requires var r := ExecRead(g, AllReadStmts(g, a, k).value, env, data, pos).value;
             a[k].name in r && r[a[k].name] == VNone
    ensures ReadStmts(g, a[k]).Some? && ExecRead(g, ReadStmts(g, a[k]).value, env, data, pos).Got?
    ensures var s := ExecRead(g, ReadStmts(g, a[k]).value, env, data, pos).value;
            a[k].cond.Some? && a[k].name in s && s[a[k].name] == VNone
  {
    ReadSplit(g, a, k, env, data, pos);
    var s := ExecRead(g, ReadStmts(g, a[k]).value, env, data, pos);
    FieldKind(g, a[k], env, data, pos);
    FieldsStep(g, a, k + 1, s.value, data, s.next, a[k].name);
    if a[k].cond.None? {
      NeverAbsent(g, a[k], env, data, pos);
    }
  }

  lemma NeverAbsent(g: Globals, f: Field, env: Env, data: seq<byte>, pos: nat)
    requires Plain(f) && f.cond.None? && f.name != COUNTER && ReadStmts(g, f).Some?
    requires ExecRead(g, ReadStmts(g, f).value, env, data, pos).Got?
    ensures var r := ExecRead(g, ReadStmts(g, f).value, env, data, pos).value; f.name in r && r[f.name] != VNone
  {
    var body := GenFieldRead(g, f).value;
    LiftRuns(g, body, env, data, pos);
    BodyKind(g, f, env, data, pos);
    if !f.isVector {
      assert body[0].Let? && body == [Let(f.name, body[0].e)];
      SingleRead(g, f.name, body[0].e, env, data, pos);
    }
  }

  // ---- the audit, exactly ----

  /** What `ReadCtor` comes to once it exists. */
  lemma CtorRuns(g: Globals, c: Ctor, data: seq<byte>, pos: nat)
    requires GenCtor(g, c).Some?
    ensures AllReadStmts(g, c.fields, 0).Some?
    ensures ReadCtor(g, c, data, pos) ==
            match ExecRead(g, LetWords(DeclaredWords(c.fields)), map[], data, pos)
            case Fail(er, p) => Fail(er, p)
            case Got(env, p) =>
              match ExecRead(g, AllReadStmts(g, c.fields, 0).value, env, data, p)
              case Fail(er, q) => Fail(er, q)
              case Got(out, q) =>
                match Collect(c.fields, out)
                case None => Fail(Other, q)
                case Some(values) => Got(VStruct(c.pred, values), q)
  {
    ExecReadAppend(g, LetWords(DeclaredWords(c.fields)), AllReadStmts(g, c.fields, 0).value, map[], data, pos);
  }

  /** The old values in the shape of the new fields. */
  function Extended(oldFields: seq<Field>, newFields: seq<Field>, values: seq<Value>): (r: seq<Value>)
    requires Embeds(Shapes(FromCtor, oldFields), Shapes(FromCtor, newFields)) && |oldFields| == |values|
    ensures |r| == |newFields|
  {
    AlignedEmbeds(oldFields, newFields);
    Extend(oldFields, Aligned(oldFields, newFields), values)
  }

  /** A payload of the old shape that can be asked about: the audit accepts the pair, the added
      fields' bits are clear, and no field that changed is called like the emitted counter. */
  ghost predicate Audited(g: Globals, older: Ctor, newer: Ctor, data: seq<byte>, pos: nat) {
    && GenCtor(g, older).Some? && GenCtor(g, newer).Some? && Orderly(newer.fields)
    && Embeds(Shapes(FromCtor, older.fields), Shapes(FromCtor, newer.fields))
    && ReadCtor(g, older, data, pos).Got? && |ReadCtor(g, older, data, pos).value.fields| == |older.fields|
    && AddedClear(older.fields, Aligned(older.fields, newer.fields), older.fields,
                  ReadCtor(g, older, data, pos).value.fields)
    && forall j :: 0 <= j < |newer.fields| && Changed(Aligned(older.fields, newer.fields), newer.fields, j) ==>
         newer.fields[j].name != COUNTER
  }

  /** The new shape with the vector-ness of the old one. */
  function Middle(older: Ctor, newer: Ctor): Ctor {
    newer.(fields := Aligned(older.fields, newer.fields))
  }

  lemma MiddleReads(g: Globals, older: Ctor, newer: Ctor, data: seq<byte>, pos: nat)
    requires Audited(g, older, newer, data, pos)
    ensures var m, r := Middle(older, newer), ReadCtor(g, older, data, pos);
            && GenCtor(g, m).Some? && Orderly(m.fields) && DeclaredWords(m.fields) == DeclaredWords(newer.fields)
            && ReadCtor(g, m, data, pos)
               == Got(VStruct(newer.pred, Extended(older.fields, newer.fields, r.value.fields)), r.next)
  {
    var m := Middle(older, newer);
    MiddleGenerated(g, older, newer);
    AlignedEmbeds(older.fields, newer.fields);
    AlignedWords(m.fields, newer.fields);
    AlignedOrderly(m.fields, newer.fields);
    hide GenCtor, ReadCtor, ReadStmts, AllReadStmts, Embeds, AddedClear, Aligned, Extend, EmbedsFields, DeclaredWords;
    AliasSound(g, older, m, data, pos);
  }

  lemma MiddleGenerated(g: Globals, older: Ctor, newer: Ctor)
    requires GenCtor(g, older).Some? && GenCtor(g, newer).Some?
    ensures GenCtor(g, Middle(older, newer)).Some?
  {
    hide ReadStmts, Aligned;
    FieldsRead(g, older.fields);
    FieldsRead(g, newer.fields);
    AlignedFrom(older.fields, newer.fields);
    AlignedReads(g, older.fields, newer.fields, 0);
  }

  lemma FieldsRead(g: Globals, fields: seq<Field>)
    requires AllReadStmts(g, fields, 0).Some?
    ensures forall f :: f in fields ==> ReadStmts(g, f).Some?
  {
    forall f | f in fields ensures ReadStmts(g, f).Some? {
      var i :| 0 <= i < |fields| && fields[i] == f;
      FieldReads(g, fields, 0, i);
    }
  }

  lemma AlignedOrderly(a: seq<Field>, b: seq<Field>)
    requires SameButVectors(a, b) && Orderly(b)
    ensures Orderly(a)
  {
    forall f | f in a && f.ty == Hash ensures f.cond.None? && f.name != COUNTER {
      var i :| 0 <= i < |a| && a[i] == f;
      assert b[i] in b && SameButVector(a[i], b[i]);
    }
    forall i, j | 0 <= i < j < |a| ensures a[i].name != a[j].name {
      assert SameButVector(a[i], b[i]) && SameButVector(a[j], b[j]);
    }
  }

  lemma CollectedAt(fields: seq<Field>, out: Env, values: seq<Value>, j: nat)
    requires Collect(fields, out) == Some(values) && j < |fields|
    ensures |values| == |fields| && fields[j].name in out && out[fields[j].name] == values[j]
  {
    assert fields[j] in fields;
  }

  lemma CollectedAlike(a: seq<Field>, b: seq<Field>, out: Env)
    requires SameButVectors(a, b)
    ensures Collect(a, out) == Collect(b, out)
  {
    assert forall i :: 0 <= i < |a| ==> a[i].name == b[i].name by {
      assert forall i :: 0 <= i < |a| ==> SameButVector(a[i], b[i]);
    }
    if forall f :: f in a ==> f.name in out {
      forall f | f in b ensures f.name in out {
        var i :| 0 <= i < |b| && b[i] == f;
        assert a[i] in a;
      }
      assert Collect(a, out).value == Collect(b, out).value;
    } else {
      var f :| f in a && f.name !in out;
      var i :| 0 <= i < |a| && a[i] == f;
      assert b[i] in b;
    }
  }

  /** Two shapes that differ in vector-ness only, over one payload: they agree exactly when
      every field that is read differently is absent. */
  lemma AgreeExactly(g: Globals, m: Ctor, newer: Ctor, data: seq<byte>, pos: nat)
    requires GenCtor(g, m).Some? && GenCtor(g, newer).Some? && m.pred == newer.pred
    requires SameButVectors(m.fields, newer.fields) && Orderly(m.fields) && Orderly(newer.fields)
    requires DeclaredWords(m.fields) == DeclaredWords(newer.fields) && ReadCtor(g, m, data, pos).Got?
    requires forall j :: 0 <= j < |m.fields| && Changed(m.fields, newer.fields, j) ==> newer.fields[j].name != COUNTER
    ensures |ReadCtor(g, m, data, pos).value.fields| == |m.fields|
    ensures ReadCtor(g, newer, data, pos) == ReadCtor(g, m, data, pos) <==>
            forall j :: 0 <= j < |m.fields| && Changed(m.fields, newer.fields, j) ==>
              ReadCtor(g, m, data, pos).value.fields[j] == VNone
  {
    CtorRuns(g, m, data, pos);
    CtorRuns(g, newer, data, pos);
    hide GenCtor, ReadCtor, ExecRead, LetWords, DeclaredWords, AllReadStmts, Collect, Orderly, SameButVectors;
    var w := ExecRead(g, LetWords(DeclaredWords(m.fields)), map[], data, pos);
    var out := ExecRead(g, AllReadStmts(g, m.fields, 0).value, w.value, data, w.next);
    var values := ReadCtor(g, m, data, pos).value.fields;
    SameLength(m.fields, newer.fields, out.value, values);
    if forall j :: 0 <= j < |m.fields| && Changed(m.fields, newer.fields, j) ==> values[j] == VNone {
      AllAbsent(m.fields, newer.fields, out.value, values);
      SameRun(g, m.fields, newer.fields, 0, w.value, data, w.next);
      CollectedAlike(m.fields, newer.fields, out.value);
    }
    if ReadCtor(g, newer, data, pos) == ReadCtor(g, m, data, pos) {
      forall j | 0 <= j < |m.fields| && Changed(m.fields, newer.fields, j) ensures values[j] == VNone {
        OneKind(g, m.fields, newer.fields, j, w.value, data, w.next, values);
      }
    }
  }

  lemma SameLength(a: seq<Field>, b: seq<Field>, out: Env, values: seq<Value>)
    requires SameButVectors(a, b) && Collect(a, out) == Some(values)
    ensures |values| == |a| == |b|
  {
  }

  lemma AllAbsent(a: seq<Field>, b: seq<Field>, out: Env, values: seq<Value>)
    requires SameButVectors(a, b) && Collect(a, out) == Some(values) && |values| == |a|
    requires forall j :: 0 <= j < |a| && Changed(a, b, j) ==> values[j] == VNone && b[j].name != COUNTER
    ensures ChangedAbsent(a, b, 0, out)
  {
    forall j | 0 <= j < |b| && Changed(a, b, j)
      ensures b[j].name != COUNTER && b[j].name in out && out[b[j].name] == VNone
    {
      CollectedAt(a, out, values, j);
      assert SameButVector(a[j], b[j]);
    }
  }

  /** One value cannot be of both kinds. */
  lemma OneKind(g: Globals, a: seq<Field>, b: seq<Field>, j: nat, env: Env, data: seq<byte>, pos: nat,
                values: seq<Value>)
    requires SameButVectors(a, b) && Orderly(a) && Orderly(b)
    requires AllReadStmts(g, a, 0).Some? && AllReadStmts(g, b, 0).Some?
    requires |a| == |b| && Changed(a, b, j) && b[j].name != COUNTER && |values| == |a|
    requires ExecRead(g, AllReadStmts(g, a, 0).value, env, data, pos).Got?
    requires ExecRead(g, AllReadStmts(g, b, 0).value, env, data, pos).Got?
    requires Collect(a, ExecRead(g, AllReadStmts(g, a, 0).value, env, data, pos).value) == Some(values)
    requires Collect(b, ExecRead(g, AllReadStmts(g, b, 0).value, env, data, pos).value) == Some(values)
    ensures values[j] == VNone
  {
    assert SameButVector(a[j], b[j]);
    hide ExecRead, AllReadStmts, Collect, Orderly, SameButVectors;
    RunKind(g, a, 0, j, env, data, pos);
    RunKind(g, b, 0, j, env, data, pos);
    CollectedAt(a, ExecRead(g, AllReadStmts(g, a, 0).value, env, data, pos).value, values, j);
    CollectedAt(b, ExecRead(g, AllReadStmts(g, b, 0).value, env, data, pos).value, values, j);
  }

  /** The audit, exactly: for every accepted pair and every payload the old reader takes, the
      newer reader returns the old values in the new shape, added fields absent and the same
      bytes consumed, if and only if every field that changed between vector and single value
      is absent from the payload. Flags and flag words may change: they are read alike. */
  lemma AliasExact(g: Globals, older: Ctor, newer: Ctor, data: seq<byte>, pos: nat)
    requires Audited(g, older, newer, data, pos)
    ensures var r := ReadCtor(g, older, data, pos);
            var values := Extended(older.fields, newer.fields, r.value.fields);
            ReadCtor(g, newer, data, pos) == Got(VStruct(newer.pred, values), r.next) <==>
            forall j :: 0 <= j < |newer.fields| && Changed(Aligned(older.fields, newer.fields), newer.fields, j) ==>
              values[j] == VNone
  {
    MiddleReads(g, older, newer, data, pos);
    hide GenCtor, ReadCtor, Orderly, Extended, Aligned, DeclaredWords, Changed, AddedClear, Embeds;
    AgreeExactly(g, Middle(older, newer), newer, data, pos);
  }
}
