/** `audit_aliases` of `tools/update_schema.py`: when an old constructor id may be decoded
    by the shape of a newer schema. */
module SchemaAudit {
  import opened Wrappers
  import opened Bytes
  import opened Serialize
  import opened Schema

  /** A field type as the audit compares it: the JSON side keeps `Vector<..>` in the text,
      the `.tl` side has stripped it. */
  datatype TypeText = Bare(ty: TlType) | VectorOf(ty: TlType)

  datatype Shape = Shape(name: string, text: TypeText, cond: Option<Cond>)

  function FromJson(f: Field): Shape {
    Shape(f.name, if f.isVector then VectorOf(f.ty) else Bare(f.ty), f.cond)
  }

  function FromCtor(f: Field): Shape {
    Shape(f.name, Bare(f.ty), f.cond)
  }

  function Shapes(view: Field -> Shape, fields: seq<Field>): (s: seq<Shape>)
    ensures |s| == |fields|
    ensures forall i :: 0 <= i < |fields| ==> s[i] == view(fields[i])
  {
    seq(|fields|, i requires 0 <= i < |fields| => view(fields[i]))
  }

  /** Every old field occurs in order in the new shape, and all others are conditional. */
  predicate Embeds(oldShapes: seq<Shape>, newShapes: seq<Shape>) {
    if newShapes == [] then oldShapes == []
    else if oldShapes != [] && oldShapes[0] == newShapes[0] then Embeds(oldShapes[1..], newShapes[1..])
    else newShapes[0].cond.Some? && Embeds(oldShapes, newShapes[1..])
  }

  /** `compatible`: one greedy pass with an index into the old fields. */
  method Compatible(oldShapes: seq<Shape>, newShapes: seq<Shape>) returns (ok: bool)
    ensures ok == Embeds(oldShapes, newShapes)
  {
    var i := 0;
    for k := 0 to |newShapes|
      invariant i <= |oldShapes|
      invariant Embeds(oldShapes, newShapes) == Embeds(oldShapes[i..], newShapes[k..])
    {
      var f := newShapes[k];
      assert newShapes[k..][1..] == newShapes[k + 1..];
      if i < |oldShapes| && oldShapes[i] == f {
        assert oldShapes[i..][1..] == oldShapes[i + 1..];
        i := i + 1;
      } else if f.cond.None? {
        return false;
      }
    }
    ok := i == |oldShapes|;
  }

  /** Positions in the new shape at which the old fields stand, one after the other. */
  predicate Places(oldShapes: seq<Shape>, newShapes: seq<Shape>, at: seq<nat>) {
    && |at| == |oldShapes|
    && (forall i :: 0 <= i < |at| ==> at[i] < |newShapes| && newShapes[at[i]] == oldShapes[i])
    && (forall i, j :: 0 <= i < j < |at| ==> at[i] < at[j])
  }

  /** All fields at other positions are conditional. */
  predicate OthersConditional(newShapes: seq<Shape>, at: seq<nat>) {
    forall k: nat :: k < |newShapes| && k !in at ==> newShapes[k].cond.Some?
  }

  /** The greedy pass finds an embedding whenever there is one: taking the first place that
      fits never hurts. */
  lemma EmbedsExactly(oldShapes: seq<Shape>, newShapes: seq<Shape>)
    ensures Embeds(oldShapes, newShapes) <==>
            exists at :: Places(oldShapes, newShapes, at) && OthersConditional(newShapes, at)
  {
    if Embeds(oldShapes, newShapes) {
      var at := Greedy(oldShapes, newShapes);
    }
    if exists at :: Places(oldShapes, newShapes, at) && OthersConditional(newShapes, at) {
      var at :| Places(oldShapes, newShapes, at) && OthersConditional(newShapes, at);
      GreedyEnough(oldShapes, newShapes, at);
    }
  }

  function Shifted(at: seq<nat>): (r: seq<nat>)
    ensures |r| == |at| && forall i :: 0 <= i < |at| ==> r[i] == at[i] + 1
  {
    seq(|at|, i requires 0 <= i < |at| => at[i] + 1)
  }

  lemma {:induction false} Greedy(oldShapes: seq<Shape>, newShapes: seq<Shape>) returns (at: seq<nat>)
    requires Embeds(oldShapes, newShapes)
    ensures Places(oldShapes, newShapes, at) && OthersConditional(newShapes, at)
    decreases |newShapes|
  {
    if newShapes == [] {
      at := [];
    } else {
      var taken := oldShapes != [] && oldShapes[0] == newShapes[0];
      var rest := Greedy(if taken then oldShapes[1..] else oldShapes, newShapes[1..]);
      hide *;
      at := MovedRight(oldShapes, newShapes, rest, taken);
    }
  }

  lemma MovedRight(oldShapes: seq<Shape>, newShapes: seq<Shape>, rest: seq<nat>, taken: bool) returns (at: seq<nat>)
    requires newShapes != [] && (taken ==> oldShapes != [] && oldShapes[0] == newShapes[0])
    requires taken || newShapes[0].cond.Some?
    requires Places(if taken then oldShapes[1..] else oldShapes, newShapes[1..], rest)
    requires OthersConditional(newShapes[1..], rest)
    ensures Places(oldShapes, newShapes, at) && OthersConditional(newShapes, at)
  {
    if taken {
      at := [0] + Shifted(rest);
      RightTaken(oldShapes, newShapes, rest, at);
    } else {
      at := Shifted(rest);
      RightSkipped(oldShapes, newShapes, rest, at);
    }
    OthersRight(newShapes, rest, at, taken);
  }

  lemma RightTaken(oldShapes: seq<Shape>, newShapes: seq<Shape>, rest: seq<nat>, at: seq<nat>)
    requires newShapes != [] && oldShapes != [] && oldShapes[0] == newShapes[0]
    requires Places(oldShapes[1..], newShapes[1..], rest)
    requires |at| == |rest| + 1 && at[0] == 0 && forall i :: 0 < i < |at| ==> at[i] == rest[i - 1] + 1
    ensures Places(oldShapes, newShapes, at)
  {
    forall i | 0 <= i < |at| ensures at[i] < |newShapes| && newShapes[at[i]] == oldShapes[i] {
      if i > 0 {
        assert at[i] == rest[i - 1] + 1 && newShapes[1..][rest[i - 1]] == oldShapes[1..][i - 1];
      }
    }
    forall i, j | 0 <= i < j < |at| ensures at[i] < at[j] {
      assert at[j] == rest[j - 1] + 1;
      if i > 0 {
        assert at[i] == rest[i - 1] + 1 && rest[i - 1] < rest[j - 1];
      }
    }
  }

  lemma RightSkipped(oldShapes: seq<Shape>, newShapes: seq<Shape>, rest: seq<nat>, at: seq<nat>)
    requires newShapes != [] && Places(oldShapes, newShapes[1..], rest) && at == Shifted(rest)
    ensures Places(oldShapes, newShapes, at)
  {
    forall i | 0 <= i < |at| ensures at[i] < |newShapes| && newShapes[at[i]] == oldShapes[i] {
      assert newShapes[1..][rest[i]] == oldShapes[i];
    }
  }

  lemma OthersRight(newShapes: seq<Shape>, rest: seq<nat>, at: seq<nat>, taken: bool)
    requires newShapes != [] && (taken || newShapes[0].cond.Some?)
    requires OthersConditional(newShapes[1..], rest) && at == (if taken then [0] else []) + Shifted(rest)
    ensures OthersConditional(newShapes, at)
  {
    assert taken ==> at[0] == 0;
    forall k: nat | k < |newShapes| && k !in at ensures newShapes[k].cond.Some? {
      if k > 0 {
        InShifted(rest, at, taken, k - 1);
        assert newShapes[k] == newShapes[1..][k - 1];
      }
    }
  }

  lemma InShifted(rest: seq<nat>, at: seq<nat>, taken: bool, k: nat)
    requires at == (if taken then [0] else []) + Shifted(rest)
    ensures k in rest ==> k + 1 in at
  {
    if k in rest {
      var i :| 0 <= i < |rest| && rest[i] == k;
      assert Shifted(rest)[i] == k + 1;
    }
  }

  /** One place to the left, without the first place when that is `0`. */
  function Unshifted(at: seq<nat>): (r: seq<nat>)
    requires forall i :: 0 <= i < |at| ==> at[i] > 0
    ensures |r| == |at| && forall i :: 0 <= i < |at| ==> r[i] == at[i] - 1
  {
    seq(|at|, i requires 0 <= i < |at| => at[i] - 1)
  }

  lemma {:induction false} GreedyEnough(oldShapes: seq<Shape>, newShapes: seq<Shape>, at: seq<nat>)
    requires Places(oldShapes, newShapes, at) && OthersConditional(newShapes, at)
    ensures Embeds(oldShapes, newShapes)
    decreases |newShapes|
  {
    NeedsPlace(oldShapes, newShapes, at);
    if newShapes != [] {
      var taken := oldShapes != [] && oldShapes[0] == newShapes[0];
      var left := MovedLeft(oldShapes, newShapes, at, taken);
      hide Places, OthersConditional;
      GreedyEnough(if taken then oldShapes[1..] else oldShapes, newShapes[1..], left);
    }
  }

  lemma NeedsPlace(oldShapes: seq<Shape>, newShapes: seq<Shape>, at: seq<nat>)
    requires Places(oldShapes, newShapes, at)
    ensures oldShapes != [] ==> newShapes != []
  {
    if oldShapes != [] {
      assert at[0] < |newShapes|;
    }
  }

  lemma MovedLeft(oldShapes: seq<Shape>, newShapes: seq<Shape>, at: seq<nat>, taken: bool) returns (left: seq<nat>)
    requires Places(oldShapes, newShapes, at) && OthersConditional(newShapes, at)
    requires newShapes != [] && taken == (oldShapes != [] && oldShapes[0] == newShapes[0])
    ensures Places(if taken then oldShapes[1..] else oldShapes, newShapes[1..], left)
    ensures OthersConditional(newShapes[1..], left)
    ensures taken || newShapes[0].cond.Some?
  {
    var rest := if taken then at[1..] else at;
    forall i | 0 <= i < |rest| ensures rest[i] > 0 {
      if taken {
        assert at[0] < at[i + 1];
      } else {
        assert newShapes[at[0]] == oldShapes[0];
      }
    }
    left := Unshifted(rest);
    if taken {
      LeftTaken(oldShapes, newShapes, at, left);
    } else {
      LeftSkipped(oldShapes, newShapes, at, left);
    }
    hide Places;
    forall k: nat | k < |newShapes| - 1 && k !in left ensures newShapes[1..][k].cond.Some? {
      OtherPlace(oldShapes, newShapes, at, taken, rest, left, k);
    }
  }

  lemma LeftTaken(oldShapes: seq<Shape>, newShapes: seq<Shape>, at: seq<nat>, left: seq<nat>)
    requires Places(oldShapes, newShapes, at) && newShapes != [] && oldShapes != []
    requires |left| == |at| - 1 && forall i :: 0 <= i < |left| ==> at[i + 1] == left[i] + 1
    ensures Places(oldShapes[1..], newShapes[1..], left)
  {
    forall i | 0 <= i < |left| ensures left[i] < |newShapes[1..]| && newShapes[1..][left[i]] == oldShapes[1..][i] {
      assert newShapes[at[i + 1]] == oldShapes[i + 1];
    }
    forall i, j | 0 <= i < j < |left| ensures left[i] < left[j] {
      assert at[i + 1] < at[j + 1];
    }
  }

  lemma LeftSkipped(oldShapes: seq<Shape>, newShapes: seq<Shape>, at: seq<nat>, left: seq<nat>)
    requires Places(oldShapes, newShapes, at) && OthersConditional(newShapes, at) && newShapes != []
    requires |left| == |at| && forall i :: 0 <= i < |left| ==> at[i] == left[i] + 1
    ensures Places(oldShapes, newShapes[1..], left) && newShapes[0].cond.Some?
  {
    assert 0 !in at;
    forall i | 0 <= i < |left| ensures left[i] < |newShapes[1..]| && newShapes[1..][left[i]] == oldShapes[i] {
      assert newShapes[at[i]] == oldShapes[i];
    }
    forall i, j | 0 <= i < j < |left| ensures left[i] < left[j] {
      assert at[i] < at[j];
    }
  }

  /** A place given up for an earlier one holds the same conditional field. */
  lemma OtherPlace(oldShapes: seq<Shape>, newShapes: seq<Shape>, at: seq<nat>, taken: bool, rest: seq<nat>,
                   left: seq<nat>, k: nat)
    requires Places(oldShapes, newShapes, at) && OthersConditional(newShapes, at)
    requires newShapes != [] && taken == (oldShapes != [] && oldShapes[0] == newShapes[0])
    requires rest == if taken then at[1..] else at
    requires |left| == |rest| && forall i :: 0 <= i < |rest| ==> rest[i] == left[i] + 1
    requires k < |newShapes| - 1 && k !in left
    ensures newShapes[k + 1].cond.Some?
  {
    InLeft(rest, left, k);
    if k + 1 in at {
      assert taken && at == [at[0]] + rest;
      assert newShapes[k + 1] == oldShapes[0] == newShapes[0];
      assert at[0] == k + 1 && 0 !in at;
    }
  }

  lemma InLeft(rest: seq<nat>, left: seq<nat>, k: nat)
    requires |left| == |rest| && forall i :: 0 <= i < |rest| ==> rest[i] == left[i] + 1
    ensures k + 1 in rest ==> k in left
  {
    if k + 1 in rest {
      var i :| 0 <= i < |rest| && rest[i] == k + 1;
      assert left[i] == k;
    }
  }

  // ---- more variables in scope change nothing an old reader saw ----

  ghost predicate Extends(small: Env, large: Env) {
    forall v :: v in small ==> v in large && large[v] == small[v]
  }

  lemma SimpleMonotone(g: Globals, s: Simple, env: Env, large: Env, data: seq<byte>, pos: nat)
    requires Extends(env, large) && ExecSimple(g, s, env, data, pos).Got?
    ensures var a, b := ExecSimple(g, s, env, data, pos), ExecSimple(g, s, large, data, pos);
            && b.Got? && b.next == a.next && Extends(a.value, b.value)
            && forall v :: v in large && v != s.name ==> v in b.value && b.value[v] == large[v]
  {
  }

  lemma {:induction false} BodyMonotone(g: Globals, body: seq<Simple>, env: Env, large: Env, data: seq<byte>, pos: nat)
    requires Extends(env, large) && ExecBody(g, body, env, data, pos).Got?
    ensures var a, b := ExecBody(g, body, env, data, pos), ExecBody(g, body, large, data, pos);
            && b.Got? && b.next == a.next && Extends(a.value, b.value)
    decreases |body|
  {
    if body != [] {
      SimpleMonotone(g, body[0], env, large, data, pos);
      var a, b := ExecSimple(g, body[0], env, data, pos), ExecSimple(g, body[0], large, data, pos);
      BodyMonotone(g, body[1..], a.value, b.value, data, a.next);
    }
  }

  /** The variable a statement binds in the scope of the constructor. */
  function Binds(s: RStmt): string {
    match s
    case Do(simple) => simple.name
    case _ => s.name
  }

  lemma StmtMonotone(g: Globals, s: RStmt, env: Env, large: Env, data: seq<byte>, pos: nat)
    requires Extends(env, large) && ExecRead1(g, s, env, data, pos).Got?
    ensures var a, b := ExecRead1(g, s, env, data, pos), ExecRead1(g, s, large, data, pos);
            && b.Got? && b.next == a.next && Extends(a.value, b.value)
            && forall v :: v in large && v != Binds(s) ==> v in b.value && b.value[v] == large[v]
  {
    match s
    case LetIf(name, word, bit, body) =>
      if Bit(env[word].w, bit) {
        BodyMonotone(g, body, env, large, data, pos);
      }
    case Do(simple) => SimpleMonotone(g, simple, env, large, data, pos);
    case _ =>
  }

  lemma {:induction false} StmtsMonotone(g: Globals, stmts: seq<RStmt>, env: Env, large: Env, data: seq<byte>, pos: nat)
    requires Extends(env, large) && ExecRead(g, stmts, env, data, pos).Got?
    ensures var a, b := ExecRead(g, stmts, env, data, pos), ExecRead(g, stmts, large, data, pos);
            && b.Got? && b.next == a.next && Extends(a.value, b.value)
            && forall v :: v in large && (forall s :: s in stmts ==> v != Binds(s)) ==>
                 v in b.value && b.value[v] == large[v]
    decreases |stmts|
  {
    if stmts != [] {
      StmtMonotone(g, stmts[0], env, large, data, pos);
      var a, b := ExecRead1(g, stmts[0], env, data, pos), ExecRead1(g, stmts[0], large, data, pos);
      StmtsMonotone(g, stmts[1..], a.value, b.value, data, a.next);
    }
  }

  lemma StmtKeys(g: Globals, s: RStmt, env: Env, data: seq<byte>, pos: nat)
    requires ExecRead1(g, s, env, data, pos).Got?
    ensures forall v :: v in ExecRead1(g, s, env, data, pos).value ==> v in env || v == Binds(s)
  {
    match s
    case Do(simple) =>
      match simple {
        case Let(_, _) =>
        case LetCount(_) =>
        case LetEmpty(_) =>
        case PushAll(_, _, _) =>
      }
    case _ =>
  }

  lemma {:induction false} StmtsKeys(g: Globals, stmts: seq<RStmt>, env: Env, data: seq<byte>, pos: nat)
    requires ExecRead(g, stmts, env, data, pos).Got?
    ensures forall v :: v in ExecRead(g, stmts, env, data, pos).value ==>
              v in env || exists s :: s in stmts && v == Binds(s)
    decreases |stmts|
  {
    if stmts != [] {
      var a := ExecRead1(g, stmts[0], env, data, pos);
      StmtKeys(g, stmts[0], env, data, pos);
      StmtsKeys(g, stmts[1..], a.value, data, a.next);
    }
  }

  lemma FieldBinds(g: Globals, f: Field)
    requires ReadStmts(g, f).Some?
    ensures forall s :: s in ReadStmts(g, f).value ==> Binds(s) == f.name || (Binds(s) == COUNTER && f.cond.None?)
  {
  }

  // ---- the two readers side by side ----

  /** `Embeds` on whole fields, vector-ness included. */
  predicate EmbedsFields(oldFields: seq<Field>, newFields: seq<Field>) {
    if newFields == [] then oldFields == []
    else if oldFields != [] && oldFields[0] == newFields[0] then EmbedsFields(oldFields[1..], newFields[1..])
    else newFields[0].cond.Some? && EmbedsFields(oldFields, newFields[1..])
  }

  /** What a newer struct holds for a field the payload does not carry. */
  function Absent(f: Field): Value {
    if f.ty == True then VBool(false) else VNone
  }

  /** The old values in the new shape. */
  function Extend(oldFields: seq<Field>, newFields: seq<Field>, values: seq<Value>): (r: seq<Value>)
    requires |oldFields| == |values| && EmbedsFields(oldFields, newFields)
    ensures |r| == |newFields|
  {
    if newFields == [] then []
    else if oldFields != [] && oldFields[0] == newFields[0] then
      [values[0]] + Extend(oldFields[1..], newFields[1..], values[1..])
    else [Absent(newFields[0])] + Extend(oldFields, newFields[1..], values)
  }

  /** The flag word stored in a struct value. */
  function WordOf(fields: seq<Field>, values: seq<Value>, word: string): Option<u32>
    requires |fields| == |values|
  {
    if fields == [] then None
    else if fields[0].ty == Hash && fields[0].name == word then
      if values[0].VI32? then Some(values[0].w) else None
    else WordOf(fields[1..], values[1..], word)
  }

  /** The flag words leave every added field's bit clear, and no added field is called
      like the emitted element counter. */
  predicate AddedClear(oldFields: seq<Field>, newFields: seq<Field>, all: seq<Field>, values: seq<Value>)
    requires |all| == |values|
  {
    if newFields == [] then true
    else if oldFields != [] && oldFields[0] == newFields[0] then AddedClear(oldFields[1..], newFields[1..], all, values)
    else
      && newFields[0].cond.Some? && newFields[0].name != COUNTER && newFields[0].ty != Hash
      && WordOf(all, values, newFields[0].cond.value.word).Some?
      && !Bit(WordOf(all, values, newFields[0].cond.value.word).value, newFields[0].cond.value.bit)
      && AddedClear(oldFields, newFields[1..], all, values)
  }

  ghost predicate DistinctNames(fields: seq<Field>) {
    forall i, j :: 0 <= i < j < |fields| ==> fields[i].name != fields[j].name
  }

  lemma {:induction false} EmbeddedFields(oldFields: seq<Field>, newFields: seq<Field>)
    requires EmbedsFields(oldFields, newFields)
    ensures forall f :: f in oldFields ==> f in newFields
  {
    if newFields != [] {
      if oldFields != [] && oldFields[0] == newFields[0] {
        EmbeddedFields(oldFields[1..], newFields[1..]);
        assert oldFields == [oldFields[0]] + oldFields[1..];
      } else {
        EmbeddedFields(oldFields, newFields[1..]);
      }
    }
  }

  lemma {:induction false} SameWords(oldFields: seq<Field>, newFields: seq<Field>)
    requires EmbedsFields(oldFields, newFields)
    requires forall f :: f in newFields && f.ty == Hash ==> f.cond.None?
    ensures DeclaredWords(oldFields) == DeclaredWords(newFields)
  {
    if newFields != [] {
      if oldFields != [] && oldFields[0] == newFields[0] {
        SameWords(oldFields[1..], newFields[1..]);
      } else {
        SameWords(oldFields, newFields[1..]);
      }
    }
  }

  function Picked(fields: seq<Field>, env: Env): (r: seq<Value>)
    requires forall f :: f in fields ==> f.name in env
    ensures |r| == |fields|
  {
    seq(|fields|, i requires 0 <= i < |fields| => env[fields[i].name])
  }

  /** Reading one added field: nothing is consumed and the field is absent. */
  lemma AddedField(g: Globals, f: Field, env: Env, data: seq<byte>, pos: nat)
    requires ReadStmts(g, f).Some? && f.cond.Some? && f.ty != Hash
    requires f.cond.value.word in env && env[f.cond.value.word].VI32?
    requires !Bit(env[f.cond.value.word].w, f.cond.value.bit)
    ensures ExecRead(g, ReadStmts(g, f).value, env, data, pos) == Got(env[f.name := Absent(f)], pos)
  {
    var stmts := ReadStmts(g, f).value;
    assert stmts[1..] == [];
    assert ExecRead(g, [], env[f.name := Absent(f)], data, pos) == Got(env[f.name := Absent(f)], pos);
  }

  /** One step of either reader keeps the flag words and binds only its own names. */
  lemma FieldStep(g: Globals, f: Field, env: Env, data: seq<byte>, pos: nat, w: string)
    requires ReadStmts(g, f).Some? && ExecRead(g, ReadStmts(g, f).value, env, data, pos).Got?
    requires w in env && w != f.name && w != COUNTER
    ensures var r := ExecRead(g, ReadStmts(g, f).value, env, data, pos).value; w in r && r[w] == env[w]
  {
    FieldBinds(g, f);
    StmtsMonotone(g, ReadStmts(g, f).value, env, env, data, pos);
  }

  lemma {:induction false} FieldsStep(g: Globals, fields: seq<Field>, k: nat, env: Env, data: seq<byte>, pos: nat,
                          w: string)
    requires k <= |fields| && AllReadStmts(g, fields, k).Some?
    requires ExecRead(g, AllReadStmts(g, fields, k).value, env, data, pos).Got?
    requires w in env && w != COUNTER && forall j :: k <= j < |fields| && fields[j].ty != Hash ==> fields[j].name != w
    ensures var r := ExecRead(g, AllReadStmts(g, fields, k).value, env, data, pos).value; w in r && r[w] == env[w]
    decreases |fields| - k
  {
    if k < |fields| {
      var here, rest := ReadStmts(g, fields[k]).value, AllReadStmts(g, fields, k + 1).value;
      ExecReadAppend(g, here, rest, env, data, pos);
      var a := ExecRead(g, here, env, data, pos);
      if fields[k].ty != Hash {
        FieldStep(g, fields[k], env, data, pos, w);
      }
      FieldsStep(g, fields, k + 1, a.value, data, a.next, w);
    }
  }

  /** What the scope of the old reader may hold after its first `i` fields. */
  ghost predicate OnlyOldNames(oldFields: seq<Field>, i: nat, env: Env)
    requires i <= |oldFields|
  {
    forall v :: v in env ==>
      v == COUNTER || v in DeclaredWords(oldFields) || exists m :: 0 <= m < i && oldFields[m].name == v
  }

  ghost predicate WordsStay(oldFields: seq<Field>, env: Env, values: seq<Value>)
    requires |oldFields| == |values|
  {
    forall w :: WordOf(oldFields, values, w).Some? ==> w in env && env[w] == VI32(WordOf(oldFields, values, w).value)
  }

  /** The old reader stands before field `i`, the new one before field `j`, and everything
      the old one has in scope the new one has too. */
  ghost predicate SideBySide(g: Globals, oldFields: seq<Field>, newFields: seq<Field>, i: nat, j: nat,
                             env: Env, large: Env, values: seq<Value>, data: seq<byte>, pos: nat) {
    && i <= |oldFields| == |values| && j <= |newFields|
    && AllReadStmts(g, oldFields, i).Some? && AllReadStmts(g, newFields, j).Some?
    && EmbedsFields(oldFields[i..], newFields[j..]) && DistinctNames(newFields)
    && (forall f :: f in newFields && f.ty == Hash ==> f.cond.None? && f.name != COUNTER)
    && AddedClear(oldFields[i..], newFields[j..], oldFields, values)
    && (forall m :: 0 <= m < i ==> oldFields[m] in newFields[..j])
    && Extends(env, large) && OnlyOldNames(oldFields, i, env) && WordsStay(oldFields, env, values)
    && ExecRead(g, AllReadStmts(g, oldFields, i).value, env, data, pos).Got?
    && forall f :: f in oldFields ==> f.name in ExecRead(g, AllReadStmts(g, oldFields, i).value, env, data, pos).value
  }

  /** From there the new reader ends where the old one does, with the old values. */
  ghost predicate Follows(g: Globals, oldFields: seq<Field>, newFields: seq<Field>, i: nat, j: nat,
                          env: Env, large: Env, values: seq<Value>, data: seq<byte>, pos: nat, out: Env)
    requires SideBySide(g, oldFields, newFields, i, j, env, large, values, data, pos)
  {
    var r := ExecRead(g, AllReadStmts(g, oldFields, i).value, env, data, pos);
    && ExecRead(g, AllReadStmts(g, newFields, j).value, large, data, pos) == Got(out, r.next)
    && Extends(r.value, out)
    && (forall f :: f in newFields[j..] ==> f.name in out)
    && Picked(newFields[j..], out) == Extend(oldFields[i..], newFields[j..], Picked(oldFields[i..], r.value))
  }

  lemma PickedStep(fields: seq<Field>, j: nat, env: Env)
    requires j < |fields| && fields[j].name in env && forall f :: f in fields[j + 1..] ==> f.name in env
    ensures forall f :: f in fields[j..] ==> f.name in env
    ensures Picked(fields[j..], env) == [env[fields[j].name]] + Picked(fields[j + 1..], env)
  {
    assert fields[j..] == [fields[j]] + fields[j + 1..];
  }

  lemma {:induction false} WordIsField(fields: seq<Field>, values: seq<Value>, w: string)
    requires |fields| == |values|
    ensures WordOf(fields, values, w).Some? || w in DeclaredWords(fields) ==>
              exists k :: 0 <= k < |fields| && fields[k].ty == Hash && fields[k].name == w
  {
    if fields != [] {
      WordIsField(fields[1..], values[1..], w);
      if k :| 0 <= k < |fields[1..]| && fields[1..][k].ty == Hash && fields[1..][k].name == w {
        assert fields[k + 1].ty == Hash && fields[k + 1].name == w;
      }
    }
  }

  /** A flag word is none of the other names. */
  lemma WordApart(g: Globals, oldFields: seq<Field>, newFields: seq<Field>, i: nat, j: nat,
                  env: Env, large: Env, values: seq<Value>, data: seq<byte>, pos: nat, w: string)
    requires SideBySide(g, oldFields, newFields, i, j, env, large, values, data, pos)
    requires j < |newFields| && newFields[j].ty != Hash
    requires WordOf(oldFields, values, w).Some? || w in DeclaredWords(oldFields)
    ensures w != COUNTER && w != newFields[j].name
  {
    WordIsField(oldFields, values, w);
    var k :| 0 <= k < |oldFields| && oldFields[k].ty == Hash && oldFields[k].name == w;
    if k >= i {
      EmbeddedFields(oldFields[i..], newFields[j..]);
      assert oldFields[i..][k - i] == oldFields[k];
      assert oldFields[k] in newFields[j..];
    } else {
      assert oldFields[k] in newFields[..j];
    }
    var n :| 0 <= n < |newFields| && newFields[n] == oldFields[k];
    assert n != j;
    assert n < j ==> newFields[n].name != newFields[j].name;
  }

  lemma {:induction false} Side(g: Globals, oldFields: seq<Field>, newFields: seq<Field>, i: nat, j: nat,
                                env: Env, large: Env, values: seq<Value>, data: seq<byte>, pos: nat) returns (out: Env)
    requires SideBySide(g, oldFields, newFields, i, j, env, large, values, data, pos)
    ensures Follows(g, oldFields, newFields, i, j, env, large, values, data, pos, out)
    decreases |newFields| - j, 1
  {
    if j == |newFields| {
      out := large;
    } else if i < |oldFields| && oldFields[i] == newFields[j] {
      out := SideMatched(g, oldFields, newFields, i, j, env, large, values, data, pos);
    } else {
      out := SideAdded(g, oldFields, newFields, i, j, env, large, values, data, pos);
    }
  }

  /** The statements from field `k` on: those of the field, then the rest. */
  lemma ReadSplit(g: Globals, fields: seq<Field>, k: nat, env: Env, data: seq<byte>, pos: nat)
    requires k < |fields| && AllReadStmts(g, fields, k).Some?
    ensures ReadStmts(g, fields[k]).Some? && AllReadStmts(g, fields, k + 1).Some?
    ensures ExecRead(g, AllReadStmts(g, fields, k).value, env, data, pos) ==
            match ExecRead(g, ReadStmts(g, fields[k]).value, env, data, pos)
            case Fail(er, p) => Fail(er, p)
            case Got(env', p) => ExecRead(g, AllReadStmts(g, fields, k + 1).value, env', data, p)
  {
    ExecReadAppend(g, ReadStmts(g, fields[k]).value, AllReadStmts(g, fields, k + 1).value, env, data, pos);
  }

  /** Both readers run the statements of the field they share. */
  lemma MatchedStep(g: Globals, f: Field, env: Env, large: Env, data: seq<byte>, pos: nat)
    requires ReadStmts(g, f).Some? && Extends(env, large)
    requires ExecRead(g, ReadStmts(g, f).value, env, data, pos).Got?
    ensures var a, b := ExecRead(g, ReadStmts(g, f).value, env, data, pos),
            ExecRead(g, ReadStmts(g, f).value, large, data, pos);
            && b.Got? && b.next == a.next && Extends(a.value, b.value)
            && forall v :: v in a.value ==> v in env || v == f.name || v == COUNTER
  {
    StmtsMonotone(g, ReadStmts(g, f).value, env, large, data, pos);
    StmtsKeys(g, ReadStmts(g, f).value, env, data, pos);
    FieldBinds(g, f);
  }

  lemma MatchedWords(g: Globals, oldFields: seq<Field>, newFields: seq<Field>, i: nat, j: nat,
                     env: Env, large: Env, values: seq<Value>, data: seq<byte>, pos: nat, after: Env)
    requires SideBySide(g, oldFields, newFields, i, j, env, large, values, data, pos)
    requires i < |oldFields| && j < |newFields| && oldFields[i] == newFields[j] && ReadStmts(g, oldFields[i]).Some?
    requires ExecRead(g, ReadStmts(g, oldFields[i]).value, env, data, pos).Got?
    requires after == ExecRead(g, ReadStmts(g, oldFields[i]).value, env, data, pos).value
    ensures WordsStay(oldFields, after, values)
  {
    forall w | WordOf(oldFields, values, w).Some? ensures w in after && after[w] == env[w] {
      if oldFields[i].ty == Hash {
        assert ReadStmts(g, oldFields[i]).value == [];
      } else {
        WordApart(g, oldFields, newFields, i, j, env, large, values, data, pos, w);
        FieldStep(g, oldFields[i], env, data, pos, w);
      }
    }
  }

  lemma MatchedNext(g: Globals, oldFields: seq<Field>, newFields: seq<Field>, i: nat, j: nat,
                    env: Env, large: Env, values: seq<Value>, data: seq<byte>, pos: nat, a: Step<Env>, b: Step<Env>)
    requires SideBySide(g, oldFields, newFields, i, j, env, large, values, data, pos)
    requires i < |oldFields| && j < |newFields| && oldFields[i] == newFields[j] && ReadStmts(g, oldFields[i]).Some?
    requires a == ExecRead(g, ReadStmts(g, oldFields[i]).value, env, data, pos)
    requires b == ExecRead(g, ReadStmts(g, oldFields[i]).value, large, data, pos)
    ensures a.Got? && b.Got? && a.next == b.next
    ensures SideBySide(g, oldFields, newFields, i + 1, j + 1, a.value, b.value, values, data, a.next)
  {
    ReadSplit(g, oldFields, i, env, data, pos);
    ReadSplit(g, newFields, j, large, data, pos);
    MatchedStep(g, oldFields[i], env, large, data, pos);
    MatchedWords(g, oldFields, newFields, i, j, env, large, values, data, pos, a.value);
    assert oldFields[i..][1..] == oldFields[i + 1..] && newFields[j..][1..] == newFields[j + 1..];
    forall v | v in a.value && v != COUNTER && v !in DeclaredWords(oldFields)
      ensures exists m :: 0 <= m < i + 1 && oldFields[m].name == v
    {
      if v in env {
        var m :| 0 <= m < i && oldFields[m].name == v;
      } else {
        assert oldFields[i].name == v;
      }
    }
    assert newFields[..j + 1] == newFields[..j] + [oldFields[i]];
  }

  lemma {:induction false} SideMatched(g: Globals, oldFields: seq<Field>, newFields: seq<Field>, i: nat, j: nat,
                                       env: Env, large: Env, values: seq<Value>, data: seq<byte>, pos: nat)
                                           returns (out: Env)
    requires SideBySide(g, oldFields, newFields, i, j, env, large, values, data, pos)
    requires i < |oldFields| && j < |newFields| && oldFields[i] == newFields[j]
    ensures Follows(g, oldFields, newFields, i, j, env, large, values, data, pos, out)
    decreases |newFields| - j, 0
  {
    ReadSplit(g, oldFields, i, env, data, pos);
    ReadSplit(g, newFields, j, large, data, pos);
    var here := ReadStmts(g, oldFields[i]).value;
    var a, b := ExecRead(g, here, env, data, pos), ExecRead(g, here, large, data, pos);
    MatchedNext(g, oldFields, newFields, i, j, env, large, values, data, pos, a, b);
    out := Side(g, oldFields, newFields, i + 1, j + 1, a.value, b.value, values, data, a.next);
    var r := ExecRead(g, AllReadStmts(g, oldFields, i).value, env, data, pos).value;
    assert r == ExecRead(g, AllReadStmts(g, oldFields, i + 1).value, a.value, data, a.next).value;
    MatchedExtend(oldFields, newFields, i, j, r);
    PickedStep(newFields, j, out);
  }

  lemma MatchedExtend(oldFields: seq<Field>, newFields: seq<Field>, i: nat, j: nat, r: Env)
    requires i < |oldFields| && j < |newFields| && oldFields[i] == newFields[j]
    requires EmbedsFields(oldFields[i..], newFields[j..]) && forall f :: f in oldFields ==> f.name in r
    ensures EmbedsFields(oldFields[i + 1..], newFields[j + 1..])
    ensures Extend(oldFields[i..], newFields[j..], Picked(oldFields[i..], r)) ==
            [r[newFields[j].name]] + Extend(oldFields[i + 1..], newFields[j + 1..], Picked(oldFields[i + 1..], r))
  {
    assert oldFields[i..][1..] == oldFields[i + 1..] && newFields[j..][1..] == newFields[j + 1..];
    assert Picked(oldFields[i..], r)[1..] == Picked(oldFields[i + 1..], r);
  }

  lemma AddedNext(g: Globals, oldFields: seq<Field>, newFields: seq<Field>, i: nat, j: nat,
                  env: Env, large: Env, values: seq<Value>, data: seq<byte>, pos: nat)
    requires SideBySide(g, oldFields, newFields, i, j, env, large, values, data, pos)
    requires j < |newFields| && (i == |oldFields| || oldFields[i] != newFields[j])
    ensures var wide := large[newFields[j].name := Absent(newFields[j])];
            && ReadStmts(g, newFields[j]).Some?
            && ExecRead(g, ReadStmts(g, newFields[j]).value, large, data, pos) == Got(wide, pos)
            && SideBySide(g, oldFields, newFields, i, j + 1, env, wide, values, data, pos)
  {
    var f := newFields[j];
    ReadSplit(g, newFields, j, large, data, pos);
    assert newFields[j..][1..] == newFields[j + 1..];
    AddedField(g, f, large, data, pos);
    if f.name in DeclaredWords(oldFields) {
      WordApart(g, oldFields, newFields, i, j, env, large, values, data, pos, f.name);
    }
    assert f.name !in env;
    assert newFields[..j + 1] == newFields[..j] + [f];
  }

  lemma {:induction false} SideAdded(g: Globals, oldFields: seq<Field>, newFields: seq<Field>, i: nat, j: nat,
                                     env: Env, large: Env, values: seq<Value>, data: seq<byte>, pos: nat)
                                         returns (out: Env)
    requires SideBySide(g, oldFields, newFields, i, j, env, large, values, data, pos)
    requires j < |newFields| && (i == |oldFields| || oldFields[i] != newFields[j])
    ensures Follows(g, oldFields, newFields, i, j, env, large, values, data, pos, out)
    decreases |newFields| - j, 0
  {
    hide *;
    var wide := large[newFields[j].name := Absent(newFields[j])];
    AddedNext(g, oldFields, newFields, i, j, env, large, values, data, pos);
    out := Side(g, oldFields, newFields, i, j + 1, env, wide, values, data, pos);
    FollowsAdded(g, oldFields, newFields, i, j, env, large, values, data, pos, out);
  }

  lemma FollowsAdded(g: Globals, oldFields: seq<Field>, newFields: seq<Field>, i: nat, j: nat,
                     env: Env, large: Env, values: seq<Value>, data: seq<byte>, pos: nat, out: Env)
    requires SideBySide(g, oldFields, newFields, i, j, env, large, values, data, pos)
    requires j < |newFields| && (i == |oldFields| || oldFields[i] != newFields[j]) && ReadStmts(g, newFields[j]).Some?
    requires var wide := large[newFields[j].name := Absent(newFields[j])];
             && ExecRead(g, ReadStmts(g, newFields[j]).value, large, data, pos) == Got(wide, pos)
             && SideBySide(g, oldFields, newFields, i, j + 1, env, wide, values, data, pos)
             && Follows(g, oldFields, newFields, i, j + 1, env, wide, values, data, pos, out)
    ensures Follows(g, oldFields, newFields, i, j, env, large, values, data, pos, out)
  {
    ReadSplit(g, newFields, j, large, data, pos);
    var r := ExecRead(g, AllReadStmts(g, oldFields, i).value, env, data, pos).value;
    AddedExtend(oldFields, newFields, i, j, r);
    AddedStays(g, oldFields, newFields, i, j, env, large, values, data, pos);
    PickedStep(newFields, j, out);
    hide ExecRead, AllReadStmts, Extend, EmbedsFields, AddedClear, ReadStmts, WordsStay, OnlyOldNames, Extends;
  }

  lemma AddedStays(g: Globals, oldFields: seq<Field>, newFields: seq<Field>, i: nat, j: nat,
                   env: Env, large: Env, values: seq<Value>, data: seq<byte>, pos: nat)
    requires SideBySide(g, oldFields, newFields, i, j, env, large, values, data, pos)
    requires j < |newFields| && (i == |oldFields| || oldFields[i] != newFields[j])
             && AllReadStmts(g, newFields, j + 1).Some?
    ensures var wide := large[newFields[j].name := Absent(newFields[j])];
            var r := ExecRead(g, AllReadStmts(g, newFields, j + 1).value, wide, data, pos);
            r.Got? ==> newFields[j].name in r.value && r.value[newFields[j].name] == Absent(newFields[j])
  {
    var wide := large[newFields[j].name := Absent(newFields[j])];
    assert newFields[j..][1..] == newFields[j + 1..];
    if ExecRead(g, AllReadStmts(g, newFields, j + 1).value, wide, data, pos).Got? {
      FieldsStep(g, newFields, j + 1, wide, data, pos, newFields[j].name);
    }
  }

  lemma AddedExtend(oldFields: seq<Field>, newFields: seq<Field>, i: nat, j: nat, r: Env)
    requires i <= |oldFields| && j < |newFields| && (i == |oldFields| || oldFields[i] != newFields[j])
    requires EmbedsFields(oldFields[i..], newFields[j..]) && forall f :: f in oldFields ==> f.name in r
    ensures EmbedsFields(oldFields[i..], newFields[j + 1..])
    ensures Extend(oldFields[i..], newFields[j..], Picked(oldFields[i..], r)) ==
            [Absent(newFields[j])] + Extend(oldFields[i..], newFields[j + 1..], Picked(oldFields[i..], r))
  {
    assert newFields[j..][1..] == newFields[j + 1..];
  }

  lemma {:induction false} WordPicked(fields: seq<Field>, r: Env, w: string)
    requires forall f :: f in fields ==> f.name in r
    ensures WordOf(fields, Picked(fields, r), w).Some? ==>
              w in r && r[w] == VI32(WordOf(fields, Picked(fields, r), w).value)
  {
    if fields != [] {
      assert Picked(fields, r)[1..] == Picked(fields[1..], r);
      WordPicked(fields[1..], r, w);
    }
  }

  lemma {:induction false} WordScope(g: Globals, words: seq<string>, env: Env, data: seq<byte>, pos: nat)
    requires ExecRead(g, LetWords(words), env, data, pos).Got?
    ensures var r := ExecRead(g, LetWords(words), env, data, pos).value;
            && (forall w :: w in words || w in env ==> w in r)
            && (forall w :: w in r ==> w in words || w in env)
    decreases |words|
  {
    if words != [] {
      assert LetWords(words)[1..] == LetWords(words[1..]);
      var v := GetU32(data, pos);
      WordScope(g, words[1..], env[words[0] := VI32(v.value)], data, v.next);
    }
  }

  /** Both readers leave the hoisted flag words in the same scope and stand side by side. */
  lemma StartTogether(g: Globals, oldFields: seq<Field>, newFields: seq<Field>, env: Env, data: seq<byte>, pos: nat)
    requires AllReadStmts(g, oldFields, 0).Some? && AllReadStmts(g, newFields, 0).Some?
    requires EmbedsFields(oldFields, newFields) && DistinctNames(newFields)
    requires forall f :: f in newFields && f.ty == Hash ==> f.cond.None? && f.name != COUNTER
    requires forall w :: w in DeclaredWords(oldFields) <==> w in env
    requires ExecRead(g, AllReadStmts(g, oldFields, 0).value, env, data, pos).Got?
    requires var r := ExecRead(g, AllReadStmts(g, oldFields, 0).value, env, data, pos).value;
             (forall f :: f in oldFields ==> f.name in r)
                 && AddedClear(oldFields, newFields, oldFields, Picked(oldFields, r))
    ensures var r := ExecRead(g, AllReadStmts(g, oldFields, 0).value, env, data, pos).value;
            SideBySide(g, oldFields, newFields, 0, 0, env, env, Picked(oldFields, r), data, pos)
  {
    var r := ExecRead(g, AllReadStmts(g, oldFields, 0).value, env, data, pos).value;
    var values := Picked(oldFields, r);
    assert oldFields[0..] == oldFields && newFields[0..] == newFields;
    EmbeddedFields(oldFields, newFields);
    StartWords(g, oldFields, newFields, env, data, pos, r);
  }

  lemma StartWords(g: Globals, oldFields: seq<Field>, newFields: seq<Field>, env: Env, data: seq<byte>, pos: nat,
                   r: Env)
    requires AllReadStmts(g, oldFields, 0).Some? && DistinctNames(newFields)
    requires forall f :: f in oldFields ==> f in newFields
    requires forall f :: f in newFields && f.ty == Hash ==> f.name != COUNTER
    requires forall w :: w in DeclaredWords(oldFields) <==> w in env
    requires ExecRead(g, AllReadStmts(g, oldFields, 0).value, env, data, pos).Got?
    requires r == ExecRead(g, AllReadStmts(g, oldFields, 0).value, env, data, pos).value
    requires forall f :: f in oldFields ==> f.name in r
    ensures WordsStay(oldFields, env, Picked(oldFields, r))
  {
    var values := Picked(oldFields, r);
    forall w | WordOf(oldFields, values, w).Some?
      ensures w in env && env[w] == VI32(WordOf(oldFields, values, w).value)
    {
      WordPicked(oldFields, r, w);
      WordIsField(oldFields, values, w);
      var k :| 0 <= k < |oldFields| && oldFields[k].ty == Hash && oldFields[k].name == w;
      DeclaredHas(oldFields, k);
      forall m | 0 <= m < |oldFields| && oldFields[m].ty != Hash ensures oldFields[m].name != w {
        DistinctFields(newFields, oldFields[k], oldFields[m]);
      }
      FieldsStep(g, oldFields, 0, env, data, pos, w);
    }
  }

  lemma DistinctFields(fields: seq<Field>, a: Field, b: Field)
    requires DistinctNames(fields) && a in fields && b in fields && a != b
    ensures a.name != b.name
  {
    var m :| 0 <= m < |fields| && fields[m] == a;
    var n :| 0 <= n < |fields| && fields[n] == b;
    assert m < n || n < m;
  }

  lemma {:induction false} DeclaredHas(fields: seq<Field>, k: nat)
    requires k < |fields| && fields[k].ty == Hash
    ensures fields[k].name in DeclaredWords(fields)
  {
    if k > 0 {
      DeclaredHas(fields[1..], k - 1);
    }
  }

  /** The audit is sound: when the old shape embeds in the new one, whatever payload the
      old reader accepts, with the added fields' bits clear, the new reader accepts too,
      with the same values, the added fields absent and the same bytes consumed. */
  lemma AliasSound(g: Globals, older: Ctor, newer: Ctor, data: seq<byte>, pos: nat)
    requires GenCtor(g, older).Some? && GenCtor(g, newer).Some?
    requires EmbedsFields(older.fields, newer.fields) && DistinctNames(newer.fields)
    requires forall f :: f in newer.fields && f.ty == Hash ==> f.cond.None? && f.name != COUNTER
    requires ReadCtor(g, older, data, pos).Got?
    requires var x := ReadCtor(g, older, data, pos).value;
             |x.fields| == |older.fields| && AddedClear(older.fields, newer.fields, older.fields, x.fields)
    ensures var r := ReadCtor(g, older, data, pos);
            ReadCtor(g, newer, data, pos) ==
            Got(VStruct(newer.pred, Extend(older.fields, newer.fields, r.value.fields)), r.next)
  {
    var words := DeclaredWords(older.fields);
    SameWords(older.fields, newer.fields);
    var oldBody, newBody := AllReadStmts(g, older.fields, 0).value, AllReadStmts(g, newer.fields, 0).value;
    ExecReadAppend(g, LetWords(words), oldBody, map[], data, pos);
    ExecReadAppend(g, LetWords(words), newBody, map[], data, pos);
    WordScope(g, words, map[], data, pos);
    var w := ExecRead(g, LetWords(words), map[], data, pos);
    var r := ExecRead(g, oldBody, w.value, data, w.next).value;
    assert ReadCtor(g, older, data, pos).value.fields == Picked(older.fields, r);
    StartTogether(g, older.fields, newer.fields, w.value, data, w.next);
    var out := Side(g, older.fields, newer.fields, 0, 0, w.value, w.value, Picked(older.fields, r), data, w.next);
    Collected(older.fields, newer.fields, r, out);
  }

  lemma Collected(oldFields: seq<Field>, newFields: seq<Field>, r: Env, out: Env)
    requires EmbedsFields(oldFields, newFields) && forall f :: f in oldFields ==> f.name in r
    requires forall f :: f in newFields[0..] ==> f.name in out
    requires Picked(newFields[0..], out) == Extend(oldFields[0..], newFields[0..], Picked(oldFields[0..], r))
    ensures Collect(newFields, out) == Some(Extend(oldFields, newFields, Picked(oldFields, r)))
  {
    assert oldFields[0..] == oldFields && newFields[0..] == newFields;
  }

  // ---- what the script compares ----

  /** Fields of one name are vectors in both shapes or in neither. */
  ghost predicate SameVectors(oldFields: seq<Field>, newFields: seq<Field>) {
    forall a, b :: a in oldFields && b in newFields && a.name == b.name ==> a.isVector == b.isVector
  }

  lemma EmbeddedAgree(oldFields: seq<Field>, newFields: seq<Field>)
    requires EmbedsFields(oldFields, newFields) && DistinctNames(newFields)
    ensures SameVectors(oldFields, newFields)
  {
    EmbeddedFields(oldFields, newFields);
    forall a, b | a in oldFields && b in newFields && a.name == b.name ensures a == b {
      if a != b {
        DistinctFields(newFields, a, b);
      }
    }
  }

  lemma {:induction false} EmbedsWithoutVectors(oldFields: seq<Field>, newFields: seq<Field>)
    requires EmbedsFields(oldFields, newFields) && DistinctNames(newFields)
    ensures Embeds(Shapes(FromCtor, oldFields), Shapes(FromCtor, newFields))
  {
    if newFields != [] {
      assert Shapes(FromCtor, newFields[1..]) == Shapes(FromCtor, newFields)[1..];
      if oldFields != [] {
        assert Shapes(FromCtor, oldFields[1..]) == Shapes(FromCtor, oldFields)[1..];
      }
      if oldFields != [] && oldFields[0] == newFields[0] {
        EmbedsWithoutVectors(oldFields[1..], newFields[1..]);
      } else {
        EmbedsWithoutVectors(oldFields, newFields[1..]);
        if oldFields != [] {
          EmbeddedFields(oldFields, newFields[1..]);
          assert oldFields[0] in newFields[1..];
        }
      }
    }
  }

  lemma {:induction false} EmbedsWithVectors(oldFields: seq<Field>, newFields: seq<Field>)
    requires Embeds(Shapes(FromCtor, oldFields), Shapes(FromCtor, newFields)) && SameVectors(oldFields, newFields)
    ensures EmbedsFields(oldFields, newFields)
  {
    if newFields != [] {
      assert Shapes(FromCtor, newFields[1..]) == Shapes(FromCtor, newFields)[1..];
      assert newFields == [newFields[0]] + newFields[1..];
      if oldFields != [] {
        assert Shapes(FromCtor, oldFields[1..]) == Shapes(FromCtor, oldFields)[1..];
        assert oldFields == [oldFields[0]] + oldFields[1..];
      }
      if oldFields != [] && FromCtor(oldFields[0]) == FromCtor(newFields[0]) {
        EmbedsWithVectors(oldFields[1..], newFields[1..]);
      } else {
        EmbedsWithVectors(oldFields, newFields[1..]);
      }
    }
  }

  /** The `.tl` sides are compared without vector-ness: acceptance means embedding exactly
      when no field of one name changed between vector and single value. */
  lemma AuditExact(oldFields: seq<Field>, newFields: seq<Field>)
    requires DistinctNames(newFields)
    ensures EmbedsFields(oldFields, newFields) <==>
            Embeds(Shapes(FromCtor, oldFields), Shapes(FromCtor, newFields)) && SameVectors(oldFields, newFields)
  {
    if EmbedsFields(oldFields, newFields) {
      EmbeddedAgree(oldFields, newFields);
      EmbedsWithoutVectors(oldFields, newFields);
    }
    if Embeds(Shapes(FromCtor, oldFields), Shapes(FromCtor, newFields)) && SameVectors(oldFields, newFields) {
      EmbedsWithVectors(oldFields, newFields);
    }
  }

  /** Against the published JSON the script refuses every old shape that has a vector. */
  lemma {:induction false} JsonAuditExact(oldFields: seq<Field>, newFields: seq<Field>)
    ensures Embeds(Shapes(FromJson, oldFields), Shapes(FromCtor, newFields)) <==>
            Embeds(Shapes(FromCtor, oldFields), Shapes(FromCtor, newFields)) && forall f :: f in oldFields ==>
              !f.isVector
  {
    var json, olds, news := Shapes(FromJson, oldFields), Shapes(FromCtor, oldFields), Shapes(FromCtor, newFields);
    if newFields == [] {
      assert oldFields != [] ==> json != [] && olds != [];
    } else {
      assert Shapes(FromCtor, newFields[1..]) == news[1..];
      JsonAuditExact(oldFields, newFields[1..]);
      if oldFields != [] {
        assert Shapes(FromJson, oldFields[1..]) == json[1..] && Shapes(FromCtor, oldFields[1..]) == olds[1..];
        JsonAuditExact(oldFields[1..], newFields[1..]);
        assert oldFields == [oldFields[0]] + oldFields[1..];
      }
    }
  }

  /** One unconditional `int` field: the old side of the example below. */
  lemma OldSide(g: Globals, older: Ctor, data: seq<byte>)
    requires older == Ctor("t", 1, "T", [Field("x", Int, None, false)])
    requires data == Le(5, 4)
    ensures ReadCtor(g, older, data, 0) == Got(VStruct("t", [VI32(5)]), 4)
  {
    var a := Field("x", Int, None, false);
    assert data[0..4] == data;
    ReadBackU32(data, 0, 5);
    assert [a][1..] == [];
    assert AllReadStmts(g, [a], 1) == Some([]);
    var stmts := GenCtor(g, older).value;
    assert stmts == [Do(Let("x", RI32))] && stmts[1..] == [];
    var none: Env := map[];
    var env := none["x" := VI32(5)];
    assert ReadExpr(g, RI32, data, 0) == Got(VI32(5), 4);
    assert ExecRead(g, [], env, data, 4) == Got(env, 4);
    assert ExecRead1(g, stmts[0], none, data, 0) == Got(env, 4);
    assert ExecRead(g, stmts, none, data, 0) == Got(env, 4);
    assert Collect([a], env) == Some([VI32(5)]) by {
      assert seq(1, i requires 0 <= i < 1 => env[[a][i].name]) == [VI32(5)];
    }
  }

  lemma NewSide(g: Globals, newer: Ctor, data: seq<byte>)
    requires newer == Ctor("t", 2, "T", [Field("x", Int, None, true)])
    requires |data| == 4
    ensures ReadCtor(g, newer, data, 0).Fail?
  {
    var b := Field("x", Int, None, true);
    assert [b][1..] == [];
    assert DeclaredWords([b]) == [];
    assert AllReadStmts(g, [b], 1) == Some([]);
    var body := VectorStmts("x", RI32);
    assert ReadStmts(g, b) == Some(Lift(body));
    assert AllReadStmts(g, [b], 0) == Some(Lift(body) + []);
    var stmts := GenCtor(g, newer).value;
    assert stmts == Lift(body);
    assert stmts[0] == Do(LetCount(COUNTER));
    assert GetVectorHeader(data, 0).Fail?;
    assert ExecRead1(g, stmts[0], map[], data, 0).Fail?;
    assert ExecRead(g, stmts, map[], data, 0).Fail?;
  }

  /** `x:int` becoming `x:Vector<int>` passes the comparison, yet four bytes the old reader
      accepts are refused by the new one. */
  lemma VectorChangeAccepted(g: Globals)
    ensures var older := Ctor("t", 1, "T", [Field("x", Int, None, false)]);
            var newer := Ctor("t", 2, "T", [Field("x", Int, None, true)]);
            && Embeds(Shapes(FromCtor, older.fields), Shapes(FromCtor, newer.fields))
            && ReadCtor(g, older, Le(5, 4), 0) == Got(VStruct("t", [VI32(5)]), 4)
            && ReadCtor(g, newer, Le(5, 4), 0).Fail?
  {
    var a, b := Field("x", Int, None, false), Field("x", Int, None, true);
    assert Shapes(FromCtor, [a]) == Shapes(FromCtor, [b]) == [FromCtor(a)];
    assert [FromCtor(a)][1..] == [];
    OldSide(g, Ctor("t", 1, "T", [a]), Le(5, 4));
    NewSide(g, Ctor("t", 2, "T", [b]), Le(5, 4));
  }
}
