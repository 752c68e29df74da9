/** `compute_writable` of `tools/gentl.py`: a memo filled by a recursion that carries the
    stack of types being visited. Its answers do not depend on the order of visits. */
module SchemaWritable {
  import opened Wrappers
  import opened Schema
  import opened SchemaBoxing

  type Types = map<string, seq<Ctor>>

  predicate WritableBuiltin(ty: TlType) {
    !ty.Named? && !ty.True?
  }

  /** A field type the recursion can accept, looking at this field alone. */
  predicate Acceptable(types: Types, f: Field) {
    WritableBuiltin(f.ty) || (f.ty.Named? && f.ty.name in types)
  }

  predicate Single(types: Types, t: string) {
    t in types && |types[t]| == 1 && forall f :: f in types[t][0].fields ==> Acceptable(types, f)
  }

  /** What being writable means: everything contained, however deep, is a struct with
      acceptable fields, and nothing contained is recursive. */
  ghost predicate Writable(types: Types, t: string) {
    forall u :: u in After(Edges(types), t) ==> Single(types, u) && !Reaches(Edges(types), u, u)
  }

  lemma FieldIsEdge(types: Types, t: string, f: Field)
    requires t in types && |types[t]| == 1 && f in types[t][0].fields && f.ty.Named? && f.ty.name in types
    ensures f.ty.name in Edges(types)[t]
  {
    assert types[t][0] in types[t];
    assert f.ty.name in Mentioned(types, types[t][0].fields);
  }

  lemma FieldFollows(types: Types, t: string, u: string)
    requires t in types && u in Edges(types)[t]
    ensures After(Edges(types), u) <= After(Edges(types), t)
  {
    var e := Edges(types);
    EdgeReaches(e, t, u);
    forall v | v in After(e, u) ensures v in After(e, t) {
      if v != u {
        ReachesTransitive(e, t, u, v);
      }
    }
  }

  /** Whatever is reached from `t` is `t`'s neighbour or reached from one. */
  lemma FirstStep(e: Graph, t: string, v: string)
    requires Reaches(e, t, v)
    ensures t in e && exists u :: u in e[t] && (u == v || Reaches(e, u, v))
  {
    var p :| Path(e, p) && p[0] == t && p[|p| - 1] == v;
    assert p[1] in e[t];
    if |p| > 2 {
      var q := p[1..];
      assert Path(e, q) && q[0] == p[1] && q[|q| - 1] == v;
    }
  }

  /** A struct is writable exactly when its fields are. */
  lemma WritableByFields(types: Types, t: string)
    requires Single(types, t)
    ensures Writable(types, t) <==>
            forall f :: f in types[t][0].fields && f.ty.Named? ==> Writable(types, f.ty.name)
  {
    var e := Edges(types);
    var fields := types[t][0].fields;
    forall f | f in fields && f.ty.Named? ensures f.ty.name in e[t] {
      FieldIsEdge(types, t, f);
      FieldFollows(types, t, f.ty.name);
    }
    forall f | f in fields && f.ty.Named? && Writable(types, t) ensures Writable(types, f.ty.name) {
      FieldFollows(types, t, f.ty.name);
    }
    if forall f :: f in fields && f.ty.Named? ==> Writable(types, f.ty.name) {
      forall v | v in After(e, t) ensures Single(types, v) && !Reaches(e, v, v) {
        if Reaches(e, t, v) {
          FirstStep(e, t, v);
          var u :| u in e[t] && (u == v || Reaches(e, u, v));
          EdgeToField(types, t, u);
          assert v in After(e, u);
        }
      }
    }
  }

  lemma EdgeToField(types: Types, t: string, u: string)
    requires t in types && |types[t]| == 1 && u in Edges(types)[t]
    ensures exists f :: f in types[t][0].fields && f.ty == Named(u) && u in types
  {
    var c, v :| c in types[t] && v in Mentioned(types, c.fields) && v == u;
    assert c == types[t][0];
  }

  /** The memo holds only correct answers. */
  ghost predicate Right(types: Types, memo: map<string, bool>) {
    forall t :: t in memo ==> memo[t] == Writable(types, t)
  }

  /** The inner `ok(tname, stack)`. The types on the stack are those a chain of fields leads
      from to `t`. */
  method Ok(types: Types, t: string, stack: set<string>, memo: map<string, bool>)
    returns (ok: bool, memo': map<string, bool>)
    requires Right(types, memo) && stack <= types.Keys && t in types
    requires forall s :: s in stack ==> Reaches(Edges(types), s, t)
    ensures ok == Writable(types, t)
    ensures Right(types, memo') && memo.Keys <= memo'.Keys && (t in memo' || t in stack)
    decreases types.Keys - stack
  {
    memo' := memo;
    if t in memo {
      return memo[t], memo;
    }
    if t in stack {
      assert t in After(Edges(types), t);
      return false, memo;
    }
    var group := types[t];
    if |group| != 1 {
      assert t in After(Edges(types), t);
      return false, memo[t := false];
    }
    var fields := group[0].fields;
    for i := 0 to |fields|
      invariant Right(types, memo') && memo.Keys <= memo'.Keys
      invariant forall k :: 0 <= k < i ==>
                  Acceptable(types, fields[k]) && (fields[k].ty.Named? ==> Writable(types, fields[k].ty.name))
    {
      var f := fields[i];
      if !WritableBuiltin(f.ty) {
        var good := false;
        if f.ty.Named? && f.ty.name in types {
          FieldIsEdge(types, t, f);
          EdgeReaches(Edges(types), t, f.ty.name);
          forall s | s in stack ensures Reaches(Edges(types), s, f.ty.name) {
            ReachesTransitive(Edges(types), s, t, f.ty.name);
          }
          good, memo' := Ok(types, f.ty.name, stack + {t}, memo');
        }
        if !good {
          assert !Writable(types, t) by {
            assert t in After(Edges(types), t);
            if Single(types, t) {
              assert Acceptable(types, f);
              WritableByFields(types, t);
            }
          }
          return false, memo'[t := false];
        }
      }
    }
    assert forall f :: f in fields ==> Acceptable(types, f);
    WritableByFields(types, t);
    return true, memo'[t := true];
  }

  /** `compute_writable`: one entry for each type of the schema, each one right. */
  method ComputeWritable(types: Types) returns (memo: map<string, bool>)
    ensures types.Keys <= memo.Keys && forall t :: t in types ==> memo[t] == Writable(types, t)
  {
    memo := map[];
    var todo := types.Keys;
    while todo != {}
      invariant todo <= types.Keys && types.Keys - todo <= memo.Keys && Right(types, memo)
      decreases todo
    {
      var t :| t in todo;
      var ok;
      ok, memo := Ok(types, t, {}, memo);
      todo := todo - {t};
    }
  }

  /** A vector the memo accepts but `gen_field_write` has no statement for. */
  predicate OddVector(f: Field) {
    f.isVector && (f.ty == Double || f.ty == Int128 || f.ty == Int256 || f.ty == Bool)
  }

  /** A writable type gets a `write_to` exactly when none of its fields is a vector of
      doubles, booleans, or 128- or 256-bit integers. */
  lemma WritableEmits(g: Globals, t: string)
    requires t in g.types && Writable(g.types, t)
    requires forall u :: u in g.types && Writable(g.types, u) ==> u in g.writable
    ensures Single(g.types, t)
    ensures GenWriteTo(g, g.types[t][0]).Some? <==> forall f :: f in g.types[t][0].fields ==> !OddVector(f)
  {
    assert t in After(Edges(g.types), t);
    var c := g.types[t][0];
    WritableByFields(g.types, t);
    forall f | f in c.fields ensures FieldStmts(g, f, 0).Some? <==> !OddVector(f) {
    }
    EmitsByField(g, c.fields, 0);
  }

  lemma {:induction false} EmitsByField(g: Globals, fields: seq<Field>, k: nat)
    requires k <= |fields|
    ensures AllFieldStmts(g, fields, k).Some? <==>
            forall i :: k <= i < |fields| ==> FieldStmts(g, fields[i], 0).Some?
    decreases |fields| - k
  {
    if k < |fields| {
      EmitsByField(g, fields, k + 1);
    }
  }
}
