/** What an emitted `write_to` writes, the emitted `read_from` reads back: for every
    schema and every struct type that gets both, exactly which values survive. */
module SchemaRoundTrip {
  import opened Wrappers
  import opened Bytes
  import opened Serialize
  import opened Schema

  // ---- the schemas the theorem speaks about ----

  /** A struct type with both an emitted reader and an emitted writer. */
  predicate Emitted(g: Globals, t: string) {
    var c := SingleCtor(g, t);
    c.Some? && GenCtor(g, c.value).Some? && GenWriteTo(g, c.value).Some?
  }

  /** A field whose read binds the element count in the scope of the whole constructor. */
  predicate OpenVector(f: Field) {
    f.isVector && f.cond.None? && f.ty != Hash && f.ty != True
  }

  /** What rustc demands of the text emitted for one constructor: distinct field names,
      declared flag words with bits below 32, an `i32` where the element count takes the
      place of a field, and `write_to` on every nested type. */
  ghost predicate Accepted(g: Globals, c: Ctor) {
    && (forall i, j :: 0 <= i < j < |c.fields| ==> c.fields[i].name != c.fields[j].name)
    && (forall f :: f in c.fields && f.cond.Some? ==>
          f.cond.value.bit < 32 && f.cond.value.word in DeclaredWords(c.fields))
    && (forall f :: f in c.fields && (f.ty == Hash || f.isVector) ==> f.name != COUNTER)
    && (forall i, j :: 0 <= i < j < |c.fields| && c.fields[i].name == COUNTER && OpenVector(c.fields[j]) ==>
          c.fields[i].ty == Int && c.fields[i].cond.None?)
    && (forall f :: f in c.fields && f.ty.Named? ==> Emitted(g, f.ty.name))
  }

  /** The file compiles, and each constructor declares exactly the flag words its fields
      use, in the order of first use. */
  ghost predicate Compiles(g: Globals) {
    forall t :: Emitted(g, t) ==>
      var c := SingleCtor(g, t).value;
      Accepted(g, c) && DeclaredWords(c.fields) == UsedWords(c.fields)
  }

  // ---- the values that survive ----

  /** A value of the written Rust type that the wire can carry: short enough strings and
      vectors, and zero 128- and 256-bit integers, which the reader skips. */
  predicate CleanExpr(g: Globals, e: WExpr, x: Value)
    decreases x, 2
  {
    match e
    case WI32 => x.VI32?
    case WI64 => x.VI64?
    case WDouble => x.VDouble?
    case WStr => x.VStr? && Utf8(x.s) && |x.s| < 0x100_0000
    case WBytes => x.VBytes? && |x.b| < 0x100_0000
    case WRaw(n) => x == VRaw(Zeros(n))
    case WBool => x.VBool?
    case WNamed(t) => CleanNamed(g, t, x)
    case WVec(elem) =>
      x.VVec? && |x.items| < TWO_31 && forall i :: 0 <= i < |x.items| ==> CleanExpr(g, elem, x.items[i])
  }

  predicate CleanField(g: Globals, f: Field, x: Value)
    decreases x, 3
  {
    if f.ty == Hash then x.VI32?
    else if f.cond.Some? && f.ty == True then x.VBool?
    else
      var e := GenFieldWrite(g, f);
      e.Some? &&
      if f.cond.Some? then x.VNone? || (x.VSome? && CleanExpr(g, e.value, x.value))
      else CleanExpr(g, e.value, x)
  }

  /** Fields on the same flag bit are present together. */
  predicate BitsAgree(fields: seq<Field>, values: seq<Value>)
    requires |fields| == |values|
  {
    forall i, j :: 0 <= i < |fields| && 0 <= j < |fields| && Flagged(fields[i]) && Flagged(fields[j])
                   && fields[i].cond == fields[j].cond ==>
                     Present(fields[i], values[i]) == Present(fields[j], values[j])
  }

  predicate Flagged(f: Field) {
    f.cond.Some? && f.ty != Hash
  }

  /** A field that shares its name with the emitted element counter holds the count of the
      last vector read after it. */
  predicate CounterAgrees(fields: seq<Field>, values: seq<Value>)
    requires |fields| == |values|
  {
    forall i, j :: 0 <= i < j < |fields| && fields[i].name == COUNTER && LastVector(fields, j) ==>
      values[j].VVec? && |values[j].items| < TWO_32 && values[i] == VI32(|values[j].items|)
  }

  predicate LastVector(fields: seq<Field>, j: nat)
    requires j < |fields|
  {
    OpenVector(fields[j]) && forall k :: j < k < |fields| ==> !OpenVector(fields[k])
  }

  predicate CleanNamed(g: Globals, t: string, x: Value)
    decreases x, 1
  {
    var c := SingleCtor(g, t);
    && c.Some? && x.VStruct? && x.ctor == c.value.pred && |x.fields| == |c.value.fields|
    && (forall i :: 0 <= i < |x.fields| ==> CleanField(g, c.value.fields[i], x.fields[i]))
    && BitsAgree(c.value.fields, x.fields)
    && CounterAgrees(c.value.fields, x.fields)
  }

  /** The same value with every flag word recomputed from the fields that are present. */
  function FreshExpr(g: Globals, e: WExpr, x: Value): Value
    decreases x, 2
  {
    match e
    case WNamed(t) => FreshNamed(g, t, x)
    case WVec(elem) => if x.VVec? then VVec(FreshItems(g, elem, x.items)) else x
    case _ => x
  }

  function FreshItems(g: Globals, e: WExpr, items: seq<Value>): (r: seq<Value>)
    ensures |r| == |items|
    decreases items, 0
  {
    if items == [] then [] else [FreshExpr(g, e, items[0])] + FreshItems(g, e, items[1..])
  }

  function FreshField(g: Globals, f: Field, x: Value): Value
    decreases x, 3
  {
    match GenFieldWrite(g, f)
    case None => x
    case Some(e) =>
      if f.cond.Some? then (if x.VSome? then VSome(FreshExpr(g, e, x.value)) else x)
      else FreshExpr(g, e, x)
  }

  function FreshNamed(g: Globals, t: string, x: Value): Value
    decreases x, 1
  {
    var c := SingleCtor(g, t);
    if c.Some? && x.VStruct? && |x.fields| == |c.value.fields|
       && (forall f :: f in c.value.fields && f.cond.Some? ==> f.cond.value.bit < 32) then
      VStruct(x.ctor, seq(|x.fields|, i requires 0 <= i < |x.fields| => FreshAt(g, c.value.fields, x, i)))
    else x
  }

  function FreshAt(g: Globals, fields: seq<Field>, x: Value, i: nat): Value
    requires x.VStruct? && |x.fields| == |fields| && i < |fields|
    requires forall f :: f in fields && f.cond.Some? ==> f.cond.value.bit < 32
    decreases x, 0
  {
    if fields[i].ty == Hash then
      WordValueBound(fields, x.fields, fields[i].name);
      VI32(WordValue(fields, x.fields, fields[i].name))
    else FreshField(g, fields[i], x.fields[i])
  }

  // ---- the emitted reader, field by field ----

  function Reader(e: WExpr): RExpr {
    match e
    case WI32 => RI32
    case WI64 => RI64
    case WDouble => RDouble
    case WStr => RStr
    case WBytes => RBytes
    case WRaw(n) => RSkip(n)
    case WBool => RBool
    case WNamed(t) => RNamed(t)
    case WVec(elem) => RI32
  }

  /** Reading what `e` writes, without local variables. */
  function ReadBase(g: Globals, e: WExpr, data: seq<byte>, pos: nat): (r: Step<Value>)
    ensures r.Got? ==> pos <= r.next
  {
    if e.WVec? then
      match GetVectorHeader(data, pos)
      case Fail(er, p) => Fail(er, p)
      case Got(n, p) =>
        match ReadItems(g, Reader(e.elem), n, data, p)
        case Fail(er, q) => Fail(er, q)
        case Got(xs, q) => Got(VVec(xs), q)
    else ReadExpr(g, Reader(e), data, pos)
  }

  /** The scope after field `f` took value `x`: a vector also leaves its count behind. */
  function Bind(f: Field, env: Env, x: Value): Env {
    if OpenVector(f) && x.VVec? && |x.items| < TWO_32
    then env[COUNTER := VI32(|x.items|)][f.name := x] else env[f.name := x]
  }

  function ReadField(g: Globals, f: Field, env: Env, data: seq<byte>, pos: nat): (r: Step<Env>)
    ensures r.Got? ==> pos <= r.next
  {
    if f.ty == Hash then Got(env, pos)
    else if f.cond.Some? then
      var word := f.cond.value.word;
      if word in env && env[word].VI32? then
        var on := Bit(env[word].w, f.cond.value.bit);
        if f.ty == True then Got(env[f.name := VBool(on)], pos)
        else if !on then Got(env[f.name := VNone], pos)
        else match GenFieldWrite(g, f)
          case None => Fail(Other, pos)
          case Some(e) =>
            match ReadBase(g, e, data, pos)
            case Fail(er, p) => Fail(er, p)
            case Got(x, p) => Got(env[f.name := VSome(x)], p)
      else Fail(Other, pos)
    else match GenFieldWrite(g, f)
      case None => Fail(Other, pos)
      case Some(e) =>
        match ReadBase(g, e, data, pos)
        case Fail(er, p) => Fail(er, p)
        case Got(x, p) => Got(Bind(f, env, x), p)
  }

  function ReadFields(g: Globals, fields: seq<Field>, k: nat, env: Env, data: seq<byte>, pos: nat): (r: Step<Env>)
    requires k <= |fields|
    ensures r.Got? ==> pos <= r.next
    decreases |fields| - k
  {
    if k == |fields| then Got(env, pos)
    else match ReadField(g, fields[k], env, data, pos)
      case Fail(er, p) => Fail(er, p)
      case Got(env', p) => ReadFields(g, fields, k + 1, env', data, p)
  }

  lemma {:induction false} BodyStep(g: Globals, s: Simple, rest: seq<Simple>, env: Env, data: seq<byte>, pos: nat)
    ensures ExecBody(g, [s] + rest, env, data, pos) ==
            match ExecSimple(g, s, env, data, pos)
            case Fail(er, p) => Fail(er, p)
            case Got(env', p) => ExecBody(g, rest, env', data, p)
  {
    assert ([s] + rest)[1..] == rest;
  }

  lemma {:induction false} BodyEnd(g: Globals, env: Env, data: seq<byte>, pos: nat)
    ensures ExecBody(g, [], env, data, pos) == Got(env, pos)
  {
  }

  lemma {:induction false} PushAllStep(g: Globals, name: string, e: RExpr, n: u32, env: Env, data: seq<byte>, pos: nat)
    requires name != COUNTER
    ensures var scope := env[COUNTER := VI32(n)][name := VVec([])];
            ExecSimple(g, PushAll(COUNTER, name, e), scope, data, pos) ==
            match ReadItems(g, e, n, data, pos)
            case Fail(er, q) => Fail(er, q)
            case Got(xs, q) => Got(env[COUNTER := VI32(n)][name := VVec(xs)], q)
  {
    var scope := env[COUNTER := VI32(n)][name := VVec([])];
    match ReadItems(g, e, n, data, pos)
    case Fail(_, _) =>
    case Got(xs, _) =>
      assert [] + xs == xs;
      assert scope[name := VVec(xs)] == env[COUNTER := VI32(n)][name := VVec(xs)];
  }

  lemma {:induction false} VectorBody(g: Globals, name: string, e: RExpr, env: Env, data: seq<byte>, pos: nat)
    requires name != COUNTER
    ensures ExecBody(g, VectorStmts(name, e), env, data, pos) ==
            match GetVectorHeader(data, pos)
            case Fail(er, p) => Fail(er, p)
            case Got(n, p) =>
              match ReadItems(g, e, n, data, p)
              case Fail(er, q) => Fail(er, q)
              case Got(xs, q) => Got(env[COUNTER := VI32(n)][name := VVec(xs)], q)
  {
    assert VectorStmts(name, e) == [LetCount(COUNTER)] + ([LetEmpty(name)] + ([PushAll(COUNTER, name, e)] + []));
    BodyStep(g, LetCount(COUNTER), [LetEmpty(name)] + ([PushAll(COUNTER, name, e)] + []), env, data, pos);
    match GetVectorHeader(data, pos)
    case Fail(_, _) =>
    case Got(n, p) =>
      var env1 := env[COUNTER := VI32(n)];
      var env2 := env1[name := VVec([])];
      BodyStep(g, LetEmpty(name), [PushAll(COUNTER, name, e)] + [], env1, data, p);
      BodyStep(g, PushAll(COUNTER, name, e), [], env2, data, p);
      PushAllStep(g, name, e, n, env, data, p);
      match ReadItems(g, e, n, data, p)
      case Fail(_, _) =>
      case Got(xs, q) => BodyEnd(g, env1[name := VVec(xs)], data, q);
  }

  lemma FieldBody(g: Globals, f: Field, env: Env, data: seq<byte>, pos: nat)
    requires GenFieldRead(g, f).Some? && GenFieldWrite(g, f).Some?
    requires f.isVector ==> f.name != COUNTER
    ensures var e := GenFieldWrite(g, f).value;
            ExecBody(g, GenFieldRead(g, f).value, env, data, pos) ==
            match ReadBase(g, e, data, pos)
            case Fail(er, p) => Fail(er, p)
            case Got(x, p) =>
              Got(if f.isVector && x.VVec? && |x.items| < TWO_32
                  then env[COUNTER := VI32(|x.items|)][f.name := x] else env[f.name := x], p)
  {
    var e := GenFieldWrite(g, f).value;
    var body := GenFieldRead(g, f).value;
    if f.isVector {
      VectorBody(g, f.name, Reader(e.elem), env, data, pos);
    } else {
      assert body == [Let(f.name, Reader(e))];
      assert body[1..] == [];
    }
  }

  lemma {:induction false} ExecLift(g: Globals, body: seq<Simple>, env: Env, data: seq<byte>, pos: nat)
    ensures ExecRead(g, Lift(body), env, data, pos) == ExecBody(g, body, env, data, pos)
    decreases |body|
  {
    if body != [] {
      assert Lift(body)[1..] == Lift(body[1..]);
      match ExecSimple(g, body[0], env, data, pos)
      case Fail(_, _) =>
      case Got(env', p) => ExecLift(g, body[1..], env', data, p);
    }
  }

  lemma ExecReadOne(g: Globals, s: RStmt, env: Env, data: seq<byte>, pos: nat)
    ensures ExecRead(g, [s], env, data, pos) == ExecRead1(g, s, env, data, pos)
  {
    assert [s][1..] == [];
  }

  /** The statements emitted for one field do what `ReadField` does. */
  lemma FieldStatements(g: Globals, f: Field, env: Env, data: seq<byte>, pos: nat)
    requires ReadStmts(g, f).Some? && FieldStmts(g, f, 0).Some?
    requires f.isVector ==> f.name != COUNTER
    ensures ExecRead(g, ReadStmts(g, f).value, env, data, pos) == ReadField(g, f, env, data, pos)
  {
    if f.ty != Hash {
      if f.ty == True {
        ExecReadOne(g, ReadStmts(g, f).value[0], env, data, pos);
      } else {
        FieldBody(g, f, env, data, pos);
        if f.cond.Some? {
          ExecReadOne(g, ReadStmts(g, f).value[0], env, data, pos);
        } else {
          ExecLift(g, GenFieldRead(g, f).value, env, data, pos);
        }
      }
    }
  }

  lemma {:induction false} AllFieldStatements(g: Globals, fields: seq<Field>, k: nat, env: Env, data: seq<byte>,
                          pos: nat)
    requires k <= |fields|
    requires AllReadStmts(g, fields, k).Some? && AllFieldStmts(g, fields, k).Some?
    requires forall f :: f in fields && f.isVector ==> f.name != COUNTER
    ensures ExecRead(g, AllReadStmts(g, fields, k).value, env, data, pos) == ReadFields(g, fields, k, env, data, pos)
    decreases |fields| - k
  {
    if k < |fields| {
      var f := fields[k];
      FieldStatements(g, f, env, data, pos);
      ExecReadAppend(g, ReadStmts(g, f).value, AllReadStmts(g, fields, k + 1).value, env, data, pos);
      match ReadField(g, f, env, data, pos)
      case Fail(_, _) =>
      case Got(env', p) => AllFieldStatements(g, fields, k + 1, env', data, p);
    }
  }

  // ---- what is written is read back ----

  lemma {:induction false} ExecWriteAppend(g: Globals, c: Ctor, a: seq<WStmt>, b: seq<WStmt>, self: Value, off: nat)
    requires self.VStruct? && |self.fields| == |c.fields|
    ensures var x := ExecWrite(g, c, a, self, off);
            ExecWrite(g, c, a + b, self, off) == x + ExecWrite(g, c, b, self, off + |x|)
    decreases |a|
  {
    if a == [] {
      assert a + b == b;
    } else {
      assert (a + b)[0] == a[0] && (a + b)[1..] == a[1..] + b;
      ExecWriteAppend(g, c, a[1..], b, self, off + |ExecStmt(g, c, a[0], self, off)|);
    }
  }

  lemma ExecWriteOne(g: Globals, c: Ctor, s: WStmt, self: Value, off: nat)
    requires self.VStruct? && |self.fields| == |c.fields|
    ensures ExecWrite(g, c, [s], self, off) == ExecStmt(g, c, s, self, off)
  {
    assert [s][1..] == [];
    assert ExecWrite(g, c, [], self, off + |ExecStmt(g, c, s, self, off)|) == [];
  }

  /** What the statements of one field append. */
  function FieldEnc(g: Globals, f: Field, x: Value, off: nat): seq<byte> {
    match GenFieldWrite(g, f)
    case None => []
    case Some(e) =>
      if f.ty == Hash then []
      else if f.cond.Some? then (if x.VSome? then EncExpr(g, e, x.value, off) else [])
      else EncExpr(g, e, x, off)
  }

  lemma FieldWritten(g: Globals, c: Ctor, k: nat, self: Value, off: nat)
    requires self.VStruct? && |self.fields| == |c.fields| && k < |c.fields|
    requires FieldStmts(g, c.fields[k], k).Some?
    ensures ExecWrite(g, c, FieldStmts(g, c.fields[k], k).value, self, off) ==
            FieldEnc(g, c.fields[k], self.fields[k], off)
  {
    var stmts := FieldStmts(g, c.fields[k], k).value;
    if stmts != [] {
      ExecWriteOne(g, c, stmts[0], self, off);
    }
  }

  /** The scope after field `f` took value `x`. Flag words were bound before. */
  function BindField(f: Field, env: Env, x: Value): Env {
    if f.ty == Hash then env
    else if f.cond.Some? then env[f.name := x]
    else Bind(f, env, x)
  }

  /** The scope after all fields from `k` on took their values. */
  function BindAll(fields: seq<Field>, values: seq<Value>, k: nat, env: Env): Env
    requires |fields| == |values| && k <= |fields|
    decreases |fields| - k
  {
    if k == |fields| then env
    else BindAll(fields, values, k + 1, BindField(fields[k], env, values[k]))
  }

  function FreshValues(g: Globals, fields: seq<Field>, values: seq<Value>): (r: seq<Value>)
    requires |fields| == |values|
    ensures |r| == |values|
    ensures forall i :: 0 <= i < |values| ==> r[i] == FreshField(g, fields[i], values[i])
  {
    seq(|values|, i requires 0 <= i < |values| => FreshField(g, fields[i], values[i]))
  }

  ghost predicate WordsIn(fields: seq<Field>, values: seq<Value>, env: Env)
    requires |fields| == |values|
  {
    forall w :: w in DeclaredWords(fields) ==>
      w in env && env[w].VI32? && env[w].w == WordValue(fields, values, w)
  }

  lemma {:induction false} DeclaredWord(fields: seq<Field>, w: string)
    ensures w in DeclaredWords(fields) <==> exists i :: 0 <= i < |fields| && fields[i].ty == Hash && fields[i].name == w
  {
    if fields != [] {
      DeclaredWord(fields[1..], w);
      if w in DeclaredWords(fields[1..]) {
        var i :| 0 <= i < |fields[1..]| && fields[1..][i].ty == Hash && fields[1..][i].name == w;
        assert fields[i + 1].ty == Hash && fields[i + 1].name == w;
      }
      if i :| 0 <= i < |fields| && fields[i].ty == Hash && fields[i].name == w {
        if i > 0 {
          assert fields[1..][i - 1].ty == Hash && fields[1..][i - 1].name == w;
        }
      }
    }
  }

  /** Binding a field leaves the flag words alone. */
  lemma BindKeepsWord(g: Globals, c: Ctor, k: nat, env: Env, x: Value, w: string)
    requires Accepted(g, c) && k < |c.fields| && w in DeclaredWords(c.fields)
    ensures var r := BindField(c.fields[k], env, x);
            (w in r <==> w in env) && (w in env ==> r[w] == env[w])
  {
    WordApart(g, c, k, w);
    hide Accepted, DeclaredWords;
  }

  /** A flag word is neither the counter nor any other field. */
  lemma WordApart(g: Globals, c: Ctor, k: nat, w: string)
    requires Accepted(g, c) && k < |c.fields| && w in DeclaredWords(c.fields)
    ensures w != COUNTER && (c.fields[k].ty == Hash || w != c.fields[k].name)
  {
    DeclaredWord(c.fields, w);
    var i :| 0 <= i < |c.fields| && c.fields[i].ty == Hash && c.fields[i].name == w;
    assert c.fields[i] in c.fields;
  }

  lemma BindKeepsWords(g: Globals, c: Ctor, values: seq<Value>, k: nat, env: Env, x: Value)
    requires Accepted(g, c) && |values| == |c.fields| && k < |c.fields|
    requires WordsIn(c.fields, values, env)
    ensures WordsIn(c.fields, values, BindField(c.fields[k], env, x))
  {
    forall w | w in DeclaredWords(c.fields)
      ensures var r := BindField(c.fields[k], env, x); w in r && r[w] == env[w]
    {
      BindKeepsWord(g, c, k, env, x, w);
    }
  }

  /** The bit a conditional field is tested on tells whether the field is present. */
  lemma PresenceBit(fields: seq<Field>, values: seq<Value>, k: nat)
    requires |fields| == |values| && k < |fields| && Flagged(fields[k])
    requires BitsAgree(fields, values)
    ensures Bit(WordValue(fields, values, fields[k].cond.value.word), fields[k].cond.value.bit) <==>
            Present(fields[k], values[k])
  {
    var word, bit := fields[k].cond.value.word, fields[k].cond.value.bit;
    WordValueBit(fields, values, word, bit);
    if i :| 0 <= i < |fields| && Mentions(fields[i], word)
            && fields[i].cond.value.bit == bit && Present(fields[i], values[i]) {
      assert fields[i].cond == fields[k].cond;
    }
    assert Mentions(fields[k], word);
  }

  lemma {:induction false} ExprBack(g: Globals, e: WExpr, x: Value, off: nat, data: seq<byte>, pos: nat)
    requires Compiles(g) && !e.WVec? && (e.WNamed? ==> Emitted(g, e.t))
    requires CleanExpr(g, e, x)
    requires pos % 4 == off % 4 && At(data, pos, EncExpr(g, e, x, off))
    ensures ReadExpr(g, Reader(e), data, pos) == Got(FreshExpr(g, e, x), pos + |EncExpr(g, e, x, off)|)
    decreases x, 2
  {
    if e.WNamed? {
      NamedBack(g, e.t, x, off, data, pos);
    } else {
      ScalarBack(g, e, x, off, data, pos);
    }
  }

  lemma ScalarBack(g: Globals, e: WExpr, x: Value, off: nat, data: seq<byte>, pos: nat)
    requires !e.WVec? && !e.WNamed? && CleanExpr(g, e, x)
    requires pos % 4 == off % 4 && At(data, pos, EncExpr(g, e, x, off))
    ensures ReadExpr(g, Reader(e), data, pos) == Got(FreshExpr(g, e, x), pos + |EncExpr(g, e, x, off)|)
  {
    hide Utf8, EncBytes, GetBytes, GetU32, GetU64, GetRaw, Le;
    match e
    case WI32 => ReadBackU32(data, pos, x.w);
    case WI64 => ReadBackU64(data, pos, x.x);
    case WDouble => ReadBackU64(data, pos, x.d);
    case WStr => ReadBackBytes(x.s, off, data, pos);
    case WBytes => ReadBackBytes(x.b, off, data, pos);
    case WRaw(n) => ReadBackRaw(data, pos, x.r);
    case WBool => ReadBackU32(data, pos, if x.v then BOOL_TRUE else BOOL_FALSE);
  }

  lemma ItemsStep(g: Globals, e: WExpr, items: seq<Value>, off: nat)
    requires items != []
    ensures var a := EncExpr(g, e, items[0], off);
            EncItems(g, e, items, off) == a + EncItems(g, e, items[1..], off + |a|)
    ensures FreshItems(g, e, items) == [FreshExpr(g, e, items[0])] + FreshItems(g, e, items[1..])
  {
  }

  lemma {:induction false} ReadItemsStep(g: Globals, e: RExpr, n: nat, data: seq<byte>, pos: nat, p: nat, x: Value,
                          xs: seq<Value>, q: nat)
    requires n > 0 && ReadExpr(g, e, data, pos) == Got(x, p) && ReadItems(g, e, n - 1, data, p) == Got(xs, q)
    ensures ReadItems(g, e, n, data, pos) == Got([x] + xs, q)
  {
  }

  lemma {:induction false} ItemsEnd(g: Globals, e: WExpr, r: RExpr, off: nat, data: seq<byte>, pos: nat)
    ensures ReadItems(g, r, 0, data, pos) == Got([], pos)
    ensures FreshItems(g, e, []) == [] && EncItems(g, e, [], off) == []
  {
  }

  lemma {:induction false} ItemsBack(g: Globals, e: WExpr, items: seq<Value>, off: nat, data: seq<byte>, pos: nat)
    requires Compiles(g) && !e.WVec? && (e.WNamed? ==> Emitted(g, e.t))
    requires forall i :: 0 <= i < |items| ==> CleanExpr(g, e, items[i])
    requires pos % 4 == off % 4 && At(data, pos, EncItems(g, e, items, off))
    ensures ReadItems(g, Reader(e), |items|, data, pos) ==
            Got(FreshItems(g, e, items), pos + |EncItems(g, e, items, off)|)
    decreases items, 0
  {
    hide *;
    if items == [] {
      ItemsEnd(g, e, Reader(e), off, data, pos);
    } else {
      var a := EncExpr(g, e, items[0], off);
      var b := EncItems(g, e, items[1..], off + |a|);
      ItemsStep(g, e, items, off);
      AtSplit(data, pos, a, b);
      ExprBack(g, e, items[0], off, data, pos);
      SameAlignment(pos, off, |a|);
      ItemsBack(g, e, items[1..], off + |a|, data, pos + |a|);
      ReadItemsStep(g, Reader(e), |items|, data, pos, pos + |a|, FreshExpr(g, e, items[0]),
                    FreshItems(g, e, items[1..]), pos + |a| + |b|);
    }
  }

  /** What `gen_field_write` produces: at most one vector level, over emitted types. */
  ghost predicate Flat(g: Globals, e: WExpr) {
    if e.WVec? then !e.elem.WVec? && (e.elem.WNamed? ==> Emitted(g, e.elem.t))
    else e.WNamed? ==> Emitted(g, e.t)
  }

  lemma {:induction false} BaseBack(g: Globals, e: WExpr, x: Value, off: nat, data: seq<byte>, pos: nat)
    requires Compiles(g) && Flat(g, e)
    requires CleanExpr(g, e, x)
    requires pos % 4 == off % 4 && At(data, pos, EncExpr(g, e, x, off))
    ensures ReadBase(g, e, data, pos) == Got(FreshExpr(g, e, x), pos + |EncExpr(g, e, x, off)|)
    decreases x, 3
  {
    if e.WVec? {
      AtSplit(data, pos, EncVectorHeader(|x.items|), EncItems(g, e.elem, x.items, off + 8));
      ReadBackVectorHeader(data, pos, |x.items|);
      SameAlignment(pos, off, 8);
      ItemsBack(g, e.elem, x.items, off + 8, data, pos + 8);
    } else {
      ExprBack(g, e, x, off, data, pos);
    }
  }

  /** The statements from field `k` on: those of the field, then the rest. */
  lemma FieldsWritten(g: Globals, c: Ctor, self: Value, k: nat, off: nat)
    requires self.VStruct? && |self.fields| == |c.fields| && k < |c.fields|
    requires AllFieldStmts(g, c.fields, k).Some?
    ensures FieldStmts(g, c.fields[k], k).Some? && AllFieldStmts(g, c.fields, k + 1).Some?
    ensures var a := FieldEnc(g, c.fields[k], self.fields[k], off);
            ExecWrite(g, c, AllFieldStmts(g, c.fields, k).value, self, off) ==
            a + ExecWrite(g, c, AllFieldStmts(g, c.fields, k + 1).value, self, off + |a|)
  {
    FieldWritten(g, c, k, self, off);
    ExecWriteAppend(g, c, FieldStmts(g, c.fields[k], k).value, AllFieldStmts(g, c.fields, k + 1).value, self, off);
  }

  lemma Shape(g: Globals, t: string, c: Ctor, x: Value)
    requires Compiles(g) && Emitted(g, t) && CleanNamed(g, t, x) && SingleCtor(g, t) == Some(c)
    ensures Accepted(g, c) && DeclaredWords(c.fields) == UsedWords(c.fields)
    ensures x.VStruct? && |x.fields| == |c.fields|
    ensures t in g.types && FindArm(g, t, 0, c.id) == Some(c)
    ensures AllReadStmts(g, c.fields, 0).Some?
    ensures GenCtor(g, c) == Some(LetWords(DeclaredWords(c.fields)) + AllReadStmts(g, c.fields, 0).value)
  {
  }

  lemma FreshShape(g: Globals, t: string, c: Ctor, x: Value)
    requires Compiles(g) && Emitted(g, t) && CleanNamed(g, t, x) && SingleCtor(g, t) == Some(c)
    ensures x.VStruct? && |x.fields| == |c.fields|
    ensures var r := FreshNamed(g, t, x);
            && r.VStruct? && r.ctor == c.pred && |r.fields| == |c.fields|
            && forall i :: 0 <= i < |c.fields| && c.fields[i].ty != Hash ==>
                 r.fields[i] == FreshField(g, c.fields[i], x.fields[i])
  {
  }

  lemma ReadFieldsStep(g: Globals, fields: seq<Field>, values: seq<Value>, k: nat, env: Env, data: seq<byte>, pos: nat)
    requires k < |fields| == |values|
    requires ReadField(g, fields[k], env, data, pos).Got?
    requires ReadField(g, fields[k], env, data, pos).value == BindField(fields[k], env, values[k])
    ensures var r := ReadField(g, fields[k], env, data, pos);
            && ReadFields(g, fields, k, env, data, pos) == ReadFields(g, fields, k + 1, r.value, data, r.next)
            && BindAll(fields, values, k, env) == BindAll(fields, values, k + 1, r.value)
  {
  }

  lemma FieldsEnd(g: Globals, c: Ctor, self: Value, env: Env, off: nat, data: seq<byte>, pos: nat)
    requires self.VStruct? && |self.fields| == |c.fields|
    ensures var n := |c.fields|;
            && AllFieldStmts(g, c.fields, n) == Some([])
            && ExecWrite(g, c, [], self, off) == []
            && ReadFields(g, c.fields, n, env, data, pos) == Got(env, pos)
            && BindAll(c.fields, FreshValues(g, c.fields, self.fields), n, env) == env
  {
  }

  lemma {:induction false} FieldsBack(g: Globals, t: string, c: Ctor, x: Value, k: nat, env: Env, off: nat,
                          data: seq<byte>, pos: nat)
    requires Compiles(g) && Emitted(g, t) && CleanNamed(g, t, x) && SingleCtor(g, t) == Some(c)
    requires k <= |c.fields|
    requires WordsIn(c.fields, x.fields, env) && AllFieldStmts(g, c.fields, k).Some?
    requires pos % 4 == off % 4
    requires At(data, pos, ExecWrite(g, c, AllFieldStmts(g, c.fields, k).value, x, off))
    ensures ReadFields(g, c.fields, k, env, data, pos) ==
            Got(BindAll(c.fields, FreshValues(g, c.fields, x.fields), k, env),
                pos + |ExecWrite(g, c, AllFieldStmts(g, c.fields, k).value, x, off)|)
    decreases x, 0, |c.fields| - k
  {
    hide *;
    Shape(g, t, c, x);
    if k == |c.fields| {
      FieldsEnd(g, c, x, env, off, data, pos);
    } else {
      var f, v := c.fields[k], x.fields[k];
      var a := FieldEnc(g, f, v, off);
      FieldsWritten(g, c, x, k, off);
      AtSplit(data, pos, a, ExecWrite(g, c, AllFieldStmts(g, c.fields, k + 1).value, x, off + |a|));
      FieldBack(g, t, c, x, k, env, off, data, pos);
      ReadFieldsStep(g, c.fields, FreshValues(g, c.fields, x.fields), k, env, data, pos);
      BindKeepsWords(g, c, x.fields, k, env, FreshField(g, f, v));
      SameAlignment(pos, off, |a|);
      FieldsBack(g, t, c, x, k + 1, BindField(f, env, FreshField(g, f, v)), off + |a|, data, pos + |a|);
    }
  }

  /** What a clean field writes, and what its value becomes. */
  lemma FieldParts(g: Globals, t: string, c: Ctor, x: Value, k: nat, off: nat)
    requires Compiles(g) && Emitted(g, t) && CleanNamed(g, t, x) && SingleCtor(g, t) == Some(c)
    requires k < |c.fields| && FieldStmts(g, c.fields[k], k).Some?
    requires c.fields[k].ty != Hash && c.fields[k].ty != True
    ensures |x.fields| == |c.fields| && x.fields[k] < x
    ensures GenFieldWrite(g, c.fields[k]).Some? && Flat(g, GenFieldWrite(g, c.fields[k]).value)
    ensures var f, v := c.fields[k], x.fields[k];
            var e := GenFieldWrite(g, f).value;
            if f.cond.None? then
              CleanExpr(g, e, v) && FieldEnc(g, f, v, off) == EncExpr(g, e, v, off)
                  && FreshField(g, f, v) == FreshExpr(g, e, v)
            else if v.VSome? then
              && v.value < x
              && CleanExpr(g, e, v.value) && FieldEnc(g, f, v, off) == EncExpr(g, e, v.value, off)
              && FreshField(g, f, v) == VSome(FreshExpr(g, e, v.value))
            else v == VNone && FieldEnc(g, f, v, off) == [] && FreshField(g, f, v) == v
  {
    assert c.fields[k] in c.fields;
    assert CleanField(g, c.fields[k], x.fields[k]);
    hide EncExpr, CleanExpr, FreshExpr;
  }

  /** What the emitted reader does with field `f` when its bit tells its presence. */
  lemma ReadFieldStep(g: Globals, f: Field, env: Env, x: Value, data: seq<byte>, pos: nat)
    requires f.ty != Hash && f.ty != True && GenFieldWrite(g, f).Some?
    requires Flagged(f) ==> BitIn(f, env) == Some(x.VSome?)
    ensures var base := ReadBase(g, GenFieldWrite(g, f).value, data, pos);
            && (f.cond.None? && base.Got? && base.value == x ==>
                  ReadField(g, f, env, data, pos) == Got(BindField(f, env, x), base.next))
            && (f.cond.Some? && x.VSome? && base.Got? && base.value == x.value ==>
                  ReadField(g, f, env, data, pos) == Got(BindField(f, env, x), base.next))
            && (f.cond.Some? && x.VNone? ==> ReadField(g, f, env, data, pos) == Got(BindField(f, env, x), pos))
  {
  }

  /** The bit field `f` is tested on, when its word is in scope. */
  function BitIn(f: Field, env: Env): Option<bool>
    requires f.cond.Some?
  {
    var word := f.cond.value.word;
    if word in env && env[word].VI32? then Some(Bit(env[word].w, f.cond.value.bit)) else None
  }

  lemma BitInScope(g: Globals, t: string, c: Ctor, x: Value, k: nat, env: Env)
    requires Compiles(g) && Emitted(g, t) && CleanNamed(g, t, x) && SingleCtor(g, t) == Some(c)
    requires k < |c.fields| && WordsIn(c.fields, x.fields, env) && Flagged(c.fields[k])
    ensures |x.fields| == |c.fields|
    ensures BitIn(c.fields[k], env) == Some(Present(c.fields[k], x.fields[k]))
  {
    assert c.fields[k] in c.fields;
    PresenceBit(c.fields, x.fields, k);
  }

  /** Flag words are read beforehand; a `true` field is its bit. */
  lemma ReadMarker(g: Globals, t: string, c: Ctor, x: Value, k: nat, env: Env, off: nat, data: seq<byte>, pos: nat)
    requires Compiles(g) && Emitted(g, t) && CleanNamed(g, t, x) && SingleCtor(g, t) == Some(c)
    requires k < |c.fields| && |x.fields| == |c.fields| && FieldStmts(g, c.fields[k], k).Some?
    requires c.fields[k].ty == Hash || c.fields[k].ty == True
    requires Flagged(c.fields[k]) ==> BitIn(c.fields[k], env) == Some(Present(c.fields[k], x.fields[k]))
    ensures ReadField(g, c.fields[k], env, data, pos) ==
            Got(BindField(c.fields[k], env, FreshField(g, c.fields[k], x.fields[k])), pos)
    ensures FieldEnc(g, c.fields[k], x.fields[k], off) == []
  {
    assert CleanField(g, c.fields[k], x.fields[k]);
  }

  lemma {:induction false} FieldBack(g: Globals, t: string, c: Ctor, x: Value, k: nat, env: Env, off: nat,
                          data: seq<byte>, pos: nat)
    requires Compiles(g) && Emitted(g, t) && CleanNamed(g, t, x) && SingleCtor(g, t) == Some(c)
    requires k < |c.fields|
    requires WordsIn(c.fields, x.fields, env) && FieldStmts(g, c.fields[k], k).Some?
    requires pos % 4 == off % 4
    requires At(data, pos, FieldEnc(g, c.fields[k], x.fields[k], off))
    ensures ReadField(g, c.fields[k], env, data, pos) ==
            Got(BindField(c.fields[k], env, FreshField(g, c.fields[k], x.fields[k])),
                pos + |FieldEnc(g, c.fields[k], x.fields[k], off)|)
    decreases x, 0, 0
  {
    hide *;
    Shape(g, t, c, x);
    var f, v := c.fields[k], x.fields[k];
    if Flagged(f) {
      BitInScope(g, t, c, x, k, env);
    }
    if f.ty == Hash || f.ty == True {
      ReadMarker(g, t, c, x, k, env, off, data, pos);
    } else {
      FieldParts(g, t, c, x, k, off);
      var e := GenFieldWrite(g, f).value;
      PresentOption(f, v, FreshField(g, f, v));
      if f.cond.None? {
        BaseBack(g, e, v, off, data, pos);
      } else if v.VSome? {
        BaseBack(g, e, v.value, off, data, pos);
      }
      ReadFieldStep(g, f, env, FreshField(g, f, v), data, pos);
    }
  }

  lemma PresentOption(f: Field, x: Value, y: Value)
    requires f.ty != True
    ensures Flagged(f) ==> f.cond.Some?
    ensures Flagged(f) && (x.VSome? <==> y.VSome?) ==> Present(f, x) == y.VSome?
  {
  }

  /** The scope after the hoisted flag words. */
  function WordEnv(fields: seq<Field>, values: seq<Value>, words: seq<string>, env: Env): Env
    requires |fields| == |values|
    requires forall f :: f in fields && f.cond.Some? ==> f.cond.value.bit < 32
  {
    if words == [] then env
    else
      WordValueBound(fields, values, words[0]);
      WordEnv(fields, values, words[1..], env[words[0] := VI32(WordValue(fields, values, words[0]))])
  }

  lemma {:induction false} WordEnvHolds(fields: seq<Field>, values: seq<Value>, words: seq<string>, env: Env, w: string)
    requires |fields| == |values|
    requires forall f :: f in fields && f.cond.Some? ==> f.cond.value.bit < 32
    requires w in words || (w in env && env[w].VI32? && env[w].w == WordValue(fields, values, w))
    ensures var r := WordEnv(fields, values, words, env);
            w in r && r[w].VI32? && r[w].w == WordValue(fields, values, w)
  {
    if words != [] {
      WordValueBound(fields, values, words[0]);
      WordEnvHolds(fields, values, words[1..], env[words[0] := VI32(WordValue(fields, values, words[0]))], w);
    }
  }

  lemma {:induction false} WordsBack(g: Globals, c: Ctor, self: Value, words: seq<string>, env: Env, off: nat,
                          data: seq<byte>, pos: nat)
    requires self.VStruct? && |self.fields| == |c.fields|
    requires forall f :: f in c.fields && f.cond.Some? ==> f.cond.value.bit < 32
    requires At(data, pos, ExecWrite(g, c, WordStmts(words), self, off))
    ensures |ExecWrite(g, c, WordStmts(words), self, off)| == 4 * |words|
    ensures ExecRead(g, LetWords(words), env, data, pos) ==
            Got(WordEnv(c.fields, self.fields, words, env), pos + 4 * |words|)
    decreases |words|
  {
    if words != [] {
      var v := WordValue(c.fields, self.fields, words[0]);
      WordValueBound(c.fields, self.fields, words[0]);
      assert WordStmts(words)[1..] == WordStmts(words[1..]);
      assert LetWords(words)[1..] == LetWords(words[1..]);
      var rest := ExecWrite(g, c, WordStmts(words[1..]), self, off + 4);
      assert ExecWrite(g, c, WordStmts(words), self, off) == Le(v, 4) + rest;
      AtSplit(data, pos, Le(v, 4), rest);
      ReadBackU32(data, pos, v);
      WordsBack(g, c, self, words[1..], env[words[0] := VI32(v)], off + 4, data, pos + 4);
    }
  }

  /** A variable no later field binds keeps its value. */
  lemma {:induction false} LookupOther(fields: seq<Field>, values: seq<Value>, k: nat, env: Env, name: string)
    requires |fields| == |values| && k <= |fields| && name != COUNTER
    requires forall j :: k <= j < |fields| && fields[j].ty != Hash ==> fields[j].name != name
    requires name in env
    ensures var r := BindAll(fields, values, k, env); name in r && r[name] == env[name]
    decreases |fields| - k
  {
    if k < |fields| {
      LookupOther(fields, values, k + 1, BindField(fields[k], env, values[k]), name);
    }
  }

  /** The counter variable ends up with the count of the last open vector, if any follows. */
  lemma {:induction false} LookupCounter(fields: seq<Field>, values: seq<Value>, k: nat, env: Env)
    requires |fields| == |values| && k <= |fields| && COUNTER in env
    requires forall j :: k <= j < |fields| && fields[j].ty != Hash ==> fields[j].name != COUNTER
    requires forall j :: k <= j < |fields| && OpenVector(fields[j]) ==> values[j].VVec? && |values[j].items| < TWO_32
    ensures var r := BindAll(fields, values, k, env);
            && COUNTER in r
            && ((forall j :: k <= j < |fields| ==> !OpenVector(fields[j])) ==> r[COUNTER] == env[COUNTER])
            && (forall j :: k <= j < |fields| && LastVector(fields, j) ==> r[COUNTER] == VI32(|values[j].items|))
    decreases |fields| - k
  {
    if k < |fields| {
      LookupCounter(fields, values, k + 1, BindField(fields[k], env, values[k]));
    }
  }

  /** The scope just after field `i`, on the way to the final one. */
  lemma {:induction false} EnvAfter(fields: seq<Field>, values: seq<Value>, k: nat, env: Env,
                          i: nat) returns (after: Env)
    requires |fields| == |values| && k <= i < |fields|
    requires fields[i].ty != Hash && (OpenVector(fields[i]) ==> fields[i].name != COUNTER)
    ensures fields[i].name in after && after[fields[i].name] == values[i]
    ensures BindAll(fields, values, k, env) == BindAll(fields, values, i + 1, after)
    decreases i - k
  {
    var env' := BindField(fields[k], env, values[k]);
    if k < i {
      after := EnvAfter(fields, values, k + 1, env', i);
    } else {
      after := env';
    }
  }

  lemma {:induction false} LastOpen(fields: seq<Field>, j: nat) returns (k: nat)
    requires j < |fields| && OpenVector(fields[j])
    ensures j <= k < |fields| && LastVector(fields, k)
    decreases |fields| - j
  {
    if m :| j < m < |fields| && OpenVector(fields[m]) {
      k := LastOpen(fields, m);
    } else {
      k := j;
    }
  }

  lemma LastIsOpen(fields: seq<Field>, j: nat)
    requires j < |fields| && LastVector(fields, j)
    ensures OpenVector(fields[j])
  {
  }

  /** What the final scope holds under the name of field `i`. */
  lemma FinalVar(g: Globals, c: Ctor, values: seq<Value>, env: Env, i: nat)
    requires Accepted(g, c) && |values| == |c.fields| && i < |c.fields|
    requires c.fields[i].ty == Hash ==> c.fields[i].name in env && env[c.fields[i].name] == values[i]
    requires forall j :: 0 <= j < |c.fields| && OpenVector(c.fields[j]) ==>
              values[j].VVec? && |values[j].items| < TWO_32
    ensures var r := BindAll(c.fields, values, 0, env);
            c.fields[i].name in r &&
            if c.fields[i].name == COUNTER && exists j :: i < j < |c.fields| && OpenVector(c.fields[j])
            then forall j :: i < j < |c.fields| && LastVector(c.fields, j) ==> r[COUNTER] == VI32(|values[j].items|)
            else r[c.fields[i].name] == values[i]
  {
    var f := c.fields[i];
    assert f in c.fields;
    if f.ty == Hash {
      LookupOther(c.fields, values, 0, env, f.name);
    } else {
      var after := EnvAfter(c.fields, values, 0, env, i);
      if f.name != COUNTER {
        LookupOther(c.fields, values, i + 1, after, f.name);
      } else {
        LookupCounter(c.fields, values, i + 1, after);
      }
    }
  }

  lemma CollectAll(fields: seq<Field>, env: Env, values: seq<Value>)
    requires |values| == |fields|
    requires forall i :: 0 <= i < |fields| ==> fields[i].name in env && env[fields[i].name] == values[i]
    ensures Collect(fields, env) == Some(values)
  {
    assert forall f :: f in fields ==> f.name in env;
    assert seq(|fields|, i requires 0 <= i < |fields| => env[fields[i].name]) == values;
  }

  lemma CleanVector(g: Globals, f: Field, x: Value)
    requires CleanField(g, f, x) && OpenVector(f)
    ensures x.VVec? && |x.items| < TWO_31
    ensures FreshField(g, f, x).VVec? && |FreshField(g, f, x).items| == |x.items|
  {
  }

  lemma FreshVectors(g: Globals, t: string, c: Ctor, x: Value, j: nat)
    requires Compiles(g) && Emitted(g, t) && CleanNamed(g, t, x) && SingleCtor(g, t) == Some(c)
    requires j < |c.fields| && OpenVector(c.fields[j])
    ensures FreshNamed(g, t, x).VStruct? && |FreshNamed(g, t, x).fields| == |x.fields| == |c.fields|
    ensures var v := FreshNamed(g, t, x).fields[j];
            v.VVec? && x.fields[j].VVec? && |v.items| == |x.fields[j].items| < TWO_32
  {
    FreshShape(g, t, c, x);
    CleanVector(g, c.fields[j], x.fields[j]);
  }

  lemma FreshWord(g: Globals, t: string, c: Ctor, x: Value, i: nat)
    requires Compiles(g) && Emitted(g, t) && CleanNamed(g, t, x) && SingleCtor(g, t) == Some(c)
    requires i < |c.fields| && c.fields[i].ty == Hash
    requires forall f :: f in c.fields && f.cond.Some? ==> f.cond.value.bit < 32
    ensures FreshNamed(g, t, x).VStruct? && |FreshNamed(g, t, x).fields| == |c.fields|
    ensures var r := WordEnv(c.fields, x.fields, DeclaredWords(c.fields), map[]);
            c.fields[i].name in r && r[c.fields[i].name] == FreshNamed(g, t, x).fields[i]
  {
    DeclaredWord(c.fields, c.fields[i].name);
    WordEnvHolds(c.fields, x.fields, DeclaredWords(c.fields), map[], c.fields[i].name);
  }

  lemma FreshCounter(g: Globals, t: string, c: Ctor, x: Value, i: nat, j: nat)
    requires Compiles(g) && Emitted(g, t) && CleanNamed(g, t, x) && SingleCtor(g, t) == Some(c)
    requires i < j < |c.fields| && c.fields[i].name == COUNTER && LastVector(c.fields, j)
    ensures FreshNamed(g, t, x).VStruct? && |FreshNamed(g, t, x).fields| == |x.fields| == |c.fields|
    ensures x.fields[j].VVec? && |x.fields[j].items| < TWO_32 &&
            FreshNamed(g, t, x).fields[i] == VI32(|x.fields[j].items|)
  {
    FreshShape(g, t, c, x);
    assert CounterAgrees(c.fields, x.fields);
    assert c.fields[i] in c.fields;
    assert c.fields[i].ty == Int && c.fields[i].cond.None? && !c.fields[i].isVector;
    hide *;
    FreshInt(g, c.fields[i], x.fields[i]);
  }

  lemma FreshInt(g: Globals, f: Field, x: Value)
    requires f.ty == Int && f.cond.None? && !f.isVector
    ensures FreshField(g, f, x) == x
  {
  }

  /** The struct literal picks up every recomputed field. */
  lemma CollectFresh(g: Globals, t: string, c: Ctor, x: Value)
    requires Compiles(g) && Emitted(g, t) && CleanNamed(g, t, x) && SingleCtor(g, t) == Some(c)
    ensures FreshNamed(g, t, x).VStruct?
    ensures var words := DeclaredWords(c.fields);
            var env0 := WordEnv(c.fields, x.fields, words, map[]);
            Collect(c.fields, BindAll(c.fields, FreshNamed(g, t, x).fields, 0, env0))
                == Some(FreshNamed(g, t, x).fields)
  {
    hide *;
    Shape(g, t, c, x);
    FreshShape(g, t, c, x);
    WordsReady(g, c, x);
    var env0 := WordEnv(c.fields, x.fields, DeclaredWords(c.fields), map[]);
    var values := FreshNamed(g, t, x).fields;
    forall j | 0 <= j < |c.fields| && OpenVector(c.fields[j])
      ensures values[j].VVec? && x.fields[j].VVec? && |values[j].items| == |x.fields[j].items| < TWO_32
    {
      FreshVectors(g, t, c, x, j);
    }
    forall i | 0 <= i < |c.fields|
      ensures var r := BindAll(c.fields, values, 0, env0); c.fields[i].name in r && r[c.fields[i].name] == values[i]
    {
      if c.fields[i].ty == Hash {
        FreshWord(g, t, c, x, i);
      }
      FinalVar(g, c, values, env0, i);
      if c.fields[i].name == COUNTER {
        if j0 :| i < j0 < |c.fields| && OpenVector(c.fields[j0]) {
          var j := LastOpen(c.fields, j0);
          FreshCounter(g, t, c, x, i, j);
          assert OpenVector(c.fields[j]) by { LastIsOpen(c.fields, j); }
        }
      }
    }
    CollectAll(c.fields, BindAll(c.fields, values, 0, env0), values);
  }

  /** Flag words are not bound by the field loop, so their values do not matter to it. */
  lemma {:induction false} BindAllSame(fields: seq<Field>, a: seq<Value>, b: seq<Value>, k: nat, env: Env)
    requires |a| == |b| == |fields| && k <= |fields|
    requires forall i :: 0 <= i < |fields| && fields[i].ty != Hash ==> a[i] == b[i]
    ensures BindAll(fields, a, k, env) == BindAll(fields, b, k, env)
    decreases |fields| - k
  {
    if k < |fields| {
      BindAllSame(fields, a, b, k + 1, BindField(fields[k], env, a[k]));
    }
  }

  lemma TheCtor(g: Globals, t: string, x: Value) returns (c: Ctor)
    requires CleanNamed(g, t, x)
    ensures SingleCtor(g, t) == Some(c)
  {
    c := SingleCtor(g, t).value;
  }

  lemma {:induction false} NamedBack(g: Globals, t: string, x: Value, off: nat, data: seq<byte>, pos: nat)
    requires Compiles(g) && Emitted(g, t) && CleanNamed(g, t, x)
    requires pos % 4 == off % 4 && At(data, pos, EncNamed(g, t, x, off))
    ensures ReadNamed(g, t, data, pos) == Got(FreshNamed(g, t, x), pos + |EncNamed(g, t, x, off)|)
    decreases x, 1
  {
    hide *;
    var c := TheCtor(g, t, x);
    Shape(g, t, c, x);
    var a := Le(c.id, 4);
    NamedWritten(g, t, c, x, off);
    var b := ExecWrite(g, c, WordStmts(DeclaredWords(c.fields)), x, off + 4);
    var d := ExecWrite(g, c, AllFieldStmts(g, c.fields, 0).value, x, off + 4 + |b|);
    AtSplit(data, pos, a + b, d);
    AtSplit(data, pos, a, b);
    ReadBackU32(data, pos, c.id);
    ReadNamedSteps(g, t, data, pos);
    SameAlignment(pos, off, 4);
    CtorBack(g, t, c, x, off + 4, data, pos + 4);
  }

  lemma ReadNamedSteps(g: Globals, t: string, data: seq<byte>, pos: nat)
    requires t in g.types && GetU32(data, pos).Got?
    requires FindArm(g, t, 0, GetU32(data, pos).value).Some?
    ensures var id := GetU32(data, pos);
            ReadNamed(g, t, data, pos) == ReadCtor(g, FindArm(g, t, 0, id.value).value, data, id.next)
  {
  }

  lemma NamedWritten(g: Globals, t: string, c: Ctor, x: Value, off: nat)
    requires Compiles(g) && Emitted(g, t) && CleanNamed(g, t, x) && SingleCtor(g, t) == Some(c)
    ensures AllFieldStmts(g, c.fields, 0).Some?
    ensures var a, b := Le(c.id, 4), ExecWrite(g, c, WordStmts(DeclaredWords(c.fields)), x, off + 4);
            EncNamed(g, t, x, off) ==
            a + b + ExecWrite(g, c, AllFieldStmts(g, c.fields, 0).value, x, off + 4 + |b|)
  {
    Shape(g, t, c, x);
    var id, ws, body := [WId(c.id)], WordStmts(DeclaredWords(c.fields)), AllFieldStmts(g, c.fields, 0).value;
    assert GenWriteTo(g, c) == Some(id + ws + body);
    assert EncNamed(g, t, x, off) == ExecWrite(g, c, id + ws + body, x, off);
    hide *;
    ExecWriteAppend(g, c, id + ws, body, x, off);
    ExecWriteAppend(g, c, id, ws, x, off);
    WriteId(g, c, x, off);
  }

  lemma WriteId(g: Globals, c: Ctor, self: Value, off: nat)
    requires self.VStruct? && |self.fields| == |c.fields|
    ensures ExecWrite(g, c, [WId(c.id)], self, off) == Le(c.id, 4)
  {
    ExecWriteOne(g, c, WId(c.id), self, off);
  }

  /** Everything after the constructor id. */
  lemma {:induction false} CtorBack(g: Globals, t: string, c: Ctor, x: Value, off: nat, data: seq<byte>, pos: nat)
    requires Compiles(g) && Emitted(g, t) && CleanNamed(g, t, x) && SingleCtor(g, t) == Some(c)
    requires AllFieldStmts(g, c.fields, 0).Some? && pos % 4 == off % 4
    requires var b := ExecWrite(g, c, WordStmts(DeclaredWords(c.fields)), x, off);
             && At(data, pos, b)
             && At(data, pos + |b|, ExecWrite(g, c, AllFieldStmts(g, c.fields, 0).value, x, off + |b|))
    ensures var b := ExecWrite(g, c, WordStmts(DeclaredWords(c.fields)), x, off);
            ReadCtor(g, c, data, pos) ==
            Got(FreshNamed(g, t, x), pos + |b| + |ExecWrite(g, c, AllFieldStmts(g, c.fields, 0).value, x, off + |b|)|)
    decreases x, 0, |c.fields| + 1
  {
    hide *;
    Shape(g, t, c, x);
    var words := DeclaredWords(c.fields);
    var env0 := WordEnv(c.fields, x.fields, words, map[]);
    var b := ExecWrite(g, c, WordStmts(words), x, off);
    WordsReady(g, c, x);
    WordsBack(g, c, x, words, map[], off, data, pos);
    CollectFresh(g, t, c, x);
    ReadCtorSteps(g, c, data, pos);
    SameAlignment(pos, off, |b|);
    FieldsBack(g, t, c, x, 0, env0, off + |b|, data, pos + |b|);
    ExecReadAppend(g, LetWords(words), AllReadStmts(g, c.fields, 0).value, map[], data, pos);
    AllFieldStatements(g, c.fields, 0, env0, data, pos + |b|);
    FreshShape(g, t, c, x);
    BindAllSame(c.fields, FreshValues(g, c.fields, x.fields), FreshNamed(g, t, x).fields, 0, env0);
  }

  /** What acceptance says about the flag words, and the scope they leave. */
  lemma WordsReady(g: Globals, c: Ctor, x: Value)
    requires Accepted(g, c) && x.VStruct? && |x.fields| == |c.fields|
    ensures forall f :: f in c.fields && f.cond.Some? ==> f.cond.value.bit < 32
    ensures forall f :: f in c.fields && f.isVector ==> f.name != COUNTER
    ensures WordsIn(c.fields, x.fields, WordEnv(c.fields, x.fields, DeclaredWords(c.fields), map[]))
  {
    var words := DeclaredWords(c.fields);
    var env0 := WordEnv(c.fields, x.fields, words, map[]);
    forall w | w in words ensures w in env0 && env0[w].VI32? && env0[w].w == WordValue(c.fields, x.fields, w) {
      WordEnvHolds(c.fields, x.fields, words, map[], w);
    }
  }

  lemma ReadCtorSteps(g: Globals, c: Ctor, data: seq<byte>, pos: nat)
    requires GenCtor(g, c).Some?
    ensures ReadCtor(g, c, data, pos) ==
            match ExecRead(g, GenCtor(g, c).value, map[], data, pos)
            case Fail(er, p) => Fail(er, p)
            case Got(env, p) =>
              match Collect(c.fields, env)
              case None => Fail(Other, p)
              case Some(values) => Got(VStruct(c.pred, values), p)
  {
  }

  // ---- everything the reader returns is clean ----

  lemma GetBytesShort(data: seq<byte>, pos: nat)
    ensures GetBytes(data, pos).Got? ==> |GetBytes(data, pos).value| < 0x100_0000
  {
    Pow256Values();
  }

  lemma {:induction false} ExprRead(g: Globals, e: WExpr, data: seq<byte>, pos: nat)
    requires Compiles(g) && !e.WVec? && (e.WNamed? ==> Emitted(g, e.t))
    requires ReadExpr(g, Reader(e), data, pos).Got?
    ensures CleanExpr(g, e, ReadExpr(g, Reader(e), data, pos).value)
    decreases Left(data, pos), 2, 0
  {
    GetBytesShort(data, pos);
    if e.WNamed? {
      NamedRead(g, e.t, data, pos);
    }
  }

  lemma {:induction false} ItemsRead(g: Globals, e: WExpr, count: nat, data: seq<byte>, pos: nat)
    requires Compiles(g) && !e.WVec? && (e.WNamed? ==> Emitted(g, e.t))
    requires ReadItems(g, Reader(e), count, data, pos).Got?
    ensures forall i :: 0 <= i < count ==> CleanExpr(g, e, ReadItems(g, Reader(e), count, data, pos).value[i])
    decreases Left(data, pos), 3, count
  {
    if count > 0 {
      ExprRead(g, e, data, pos);
      ItemsRead(g, e, count - 1, data, ReadExpr(g, Reader(e), data, pos).next);
    }
  }

  lemma {:induction false} BaseRead(g: Globals, e: WExpr, data: seq<byte>, pos: nat)
    requires Compiles(g)
    requires if e.WVec? then !e.elem.WVec? && (e.elem.WNamed? ==> Emitted(g, e.elem.t))
             else e.WNamed? ==> Emitted(g, e.t)
    requires ReadBase(g, e, data, pos).Got?
    ensures CleanExpr(g, e, ReadBase(g, e, data, pos).value)
    decreases Left(data, pos), 5, 0
  {
    if e.WVec? {
      var h := GetVectorHeader(data, pos);
      ItemsRead(g, e.elem, h.value, data, h.next);
    } else {
      ExprRead(g, e, data, pos);
    }
  }

  /** Reading field `k` binds one clean value, present exactly when its bit is set. */
  lemma {:induction false} FieldRead(g: Globals, c: Ctor, k: nat, env: Env, data: seq<byte>,
                          pos: nat) returns (x: Value)
    requires Compiles(g) && Accepted(g, c) && k < |c.fields|
    requires FieldStmts(g, c.fields[k], k).Some?
    requires ReadField(g, c.fields[k], env, data, pos).Got?
    ensures var f := c.fields[k];
            && ReadField(g, f, env, data, pos).value == BindField(f, env, x)
            && (f.ty != Hash ==> CleanField(g, f, x))
            && (Flagged(f) ==>
                  f.cond.value.word in env && env[f.cond.value.word].VI32? &&
                  (Present(f, x) <==> Bit(env[f.cond.value.word].w, f.cond.value.bit)))
    decreases Left(data, pos), 6, 0
  {
    var f := c.fields[k];
    assert f in c.fields;
    x := VNone;
    if f.ty != Hash {
      if f.cond.Some? {
        var on := Bit(env[f.cond.value.word].w, f.cond.value.bit);
        if f.ty == True {
          x := VBool(on);
        } else if on {
          var e := GenFieldWrite(g, f).value;
          BaseRead(g, e, data, pos);
          x := VSome(ReadBase(g, e, data, pos).value);
        }
      } else {
        var e := GenFieldWrite(g, f).value;
        BaseRead(g, e, data, pos);
        x := ReadBase(g, e, data, pos).value;
      }
    }
  }

  /** The flag words in scope are those the hoisted reads bound. */
  ghost predicate SameWords(fields: seq<Field>, env0: Env, env: Env) {
    forall w :: w in DeclaredWords(fields) ==> w in env0 && w in env && env[w] == env0[w] && env[w].VI32?
  }

  lemma SameWordsKept(g: Globals, c: Ctor, k: nat, env0: Env, env: Env, x: Value)
    requires Accepted(g, c) && k < |c.fields| && SameWords(c.fields, env0, env)
    ensures SameWords(c.fields, env0, BindField(c.fields[k], env, x))
  {
    forall w | w in DeclaredWords(c.fields)
      ensures var r := BindField(c.fields[k], env, x); w in r && r[w] == env0[w]
    {
      BindKeepsWord(g, c, k, env, x, w);
    }
  }

  /** The value of field `k` in the struct literal, read well. */
  lemma {:induction false} FieldReadWell(g: Globals, c: Ctor, k: nat, env0: Env, env: Env, data: seq<byte>,
                          pos: nat) returns (v: Value)
    requires Compiles(g) && Accepted(g, c) && k < |c.fields|
    requires FieldStmts(g, c.fields[k], k).Some? && SameWords(c.fields, env0, env)
    requires ReadField(g, c.fields[k], env, data, pos).Got?
    ensures ReadField(g, c.fields[k], env, data, pos).value == BindField(c.fields[k], env, v)
    ensures ReadWell(g, c.fields[k], v, env0)
    decreases Left(data, pos), 6, 1
  {
    var f := c.fields[k];
    var x := FieldRead(g, c, k, env, data, pos);
    assert f in c.fields;
    DeclaredWord(c.fields, f.name);
    v := if f.ty == Hash then env0[f.name] else x;
    hide CleanField, BindField;
    if f.ty == Hash {
      HashBindsNothing(f, env, x, v);
    }
  }

  lemma HashBindsNothing(f: Field, env: Env, x: Value, y: Value)
    requires f.ty == Hash
    ensures BindField(f, env, x) == BindField(f, env, y)
  {
  }

  lemma AllFieldStmtsStep(g: Globals, fields: seq<Field>, k: nat)
    requires k < |fields| && AllFieldStmts(g, fields, k).Some?
    ensures FieldStmts(g, fields[k], k).Some? && AllFieldStmts(g, fields, k + 1).Some?
  {
  }

  lemma ReadFieldsGot(g: Globals, fields: seq<Field>, k: nat, env: Env, data: seq<byte>, pos: nat)
    requires k < |fields| && ReadFields(g, fields, k, env, data, pos).Got?
    ensures var r := ReadField(g, fields[k], env, data, pos);
            r.Got? && pos <= r.next && ReadFields(g, fields, k + 1, r.value, data, r.next).Got?
  {
  }

  lemma BindAllStep(fields: seq<Field>, values: seq<Value>, k: nat, env: Env)
    requires |fields| == |values| && k <= |fields|
    ensures BindAll(fields, values, k, env) ==
            if k == |fields| then env else BindAll(fields, values, k + 1, BindField(fields[k], env, values[k]))
  {
  }

  /** Reading all fields from `k` on: the values bound, given those bound before. */
  lemma {:induction false} FieldsRead(g: Globals, c: Ctor, done: seq<Value>, env0: Env, env: Env, data: seq<byte>,
                          pos: nat) returns (xs: seq<Value>)
    requires Compiles(g) && Accepted(g, c) && |done| <= |c.fields|
    requires AllFieldStmts(g, c.fields, |done|).Some? && SameWords(c.fields, env0, env)
    requires ReadFields(g, c.fields, |done|, env, data, pos).Got?
    ensures |xs| == |c.fields| && xs[..|done|] == done
    ensures ReadFields(g, c.fields, |done|, env, data, pos).value == BindAll(c.fields, xs, |done|, env)
    ensures forall i :: |done| <= i < |c.fields| ==> ReadWell(g, c.fields[i], xs[i], env0)
    decreases Left(data, pos), 7, |c.fields| - |done|
  {
    hide *;
    var k := |done|;
    if k == |c.fields| {
      xs := done;
      NoFieldsLeft(g, c.fields, env, data, pos);
      BindAllStep(c.fields, xs, k, env);
    } else {
      AllFieldStmtsStep(g, c.fields, k);
      ReadFieldsGot(g, c.fields, k, env, data, pos);
      var r := ReadField(g, c.fields[k], env, data, pos);
      LeftShrinks(data, pos, r.next);
      var v := FieldReadWell(g, c, k, env0, env, data, pos);
      SameWordsKept(g, c, k, env0, env, v);
      xs := FieldsRead(g, c, done + [v], env0, r.value, data, r.next);
      assert xs[..k] == xs[..k + 1][..k] == done;
      assert xs[k] == xs[..k + 1][k] == v;
      ReadFieldsStep(g, c.fields, xs, k, env, data, pos);
    }
  }

  lemma NoFieldsLeft(g: Globals, fields: seq<Field>, env: Env, data: seq<byte>, pos: nat)
    ensures ReadFields(g, fields, |fields|, env, data, pos) == Got(env, pos)
  {
  }

  lemma LeftShrinks(data: seq<byte>, pos: nat, next: nat)
    requires pos <= next
    ensures Left(data, next) <= Left(data, pos)
  {
  }

  predicate ReadWell(g: Globals, f: Field, x: Value, env: Env) {
    if f.ty == Hash then x.VI32? && f.name in env && env[f.name] == x
    else
      CleanField(g, f, x) &&
      (Flagged(f) ==>
         f.cond.value.word in env && env[f.cond.value.word].VI32? &&
         (Present(f, x) <==> Bit(env[f.cond.value.word].w, f.cond.value.bit)))
  }

  lemma {:induction false} WordsRead(g: Globals, words: seq<string>, env: Env, data: seq<byte>, pos: nat)
    requires ExecRead(g, LetWords(words), env, data, pos).Got?
    ensures var r := ExecRead(g, LetWords(words), env, data, pos).value;
            && (forall w :: w in words ==> w in r && r[w].VI32?)
            && (forall w :: w in env && env[w].VI32? ==> w in r && r[w].VI32?)
    decreases |words|
  {
    if words != [] {
      assert LetWords(words)[1..] == LetWords(words[1..]);
      var v := GetU32(data, pos);
      WordsRead(g, words[1..], env[words[0] := VI32(v.value)], data, v.next);
    }
  }

  /** What the struct literal picks up for field `i`. */
  lemma PickedField(g: Globals, c: Ctor, xs: seq<Value>, env0: Env, i: nat, x: Value)
    requires Accepted(g, c) && |xs| == |c.fields| && i < |c.fields|
    requires forall k :: 0 <= k < |c.fields| ==> ReadWell(g, c.fields[k], xs[k], env0)
    requires var r := BindAll(c.fields, xs, 0, env0); c.fields[i].name in r ==> r[c.fields[i].name] == x
    ensures CleanField(g, c.fields[i], x)
    ensures c.fields[i].name != COUNTER || Flagged(c.fields[i]) ==> x == xs[i]
    ensures c.fields[i].name == COUNTER ==>
              forall j :: i < j < |c.fields| && LastVector(c.fields, j) ==>
                xs[j].VVec? && |xs[j].items| < TWO_32 && x == VI32(|xs[j].items|)
  {
    assert c.fields[i] in c.fields;
    forall j | 0 <= j < |c.fields| && OpenVector(c.fields[j])
      ensures xs[j].VVec? && |xs[j].items| < TWO_32
    {
      CleanVector(g, c.fields[j], xs[j]);
    }
    FinalVar(g, c, xs, env0, i);
    if c.fields[i].name == COUNTER {
      if j0 :| i < j0 < |c.fields| && OpenVector(c.fields[j0]) {
        var j := LastOpen(c.fields, j0);
      }
    }
  }

  /** A struct whose fields were read well is clean. */
  lemma CleanWhenReadWell(g: Globals, t: string, c: Ctor, xs: seq<Value>, env0: Env, x: Value)
    requires Accepted(g, c) && SingleCtor(g, t) == Some(c)
    requires |xs| == |c.fields|
    requires forall i :: 0 <= i < |c.fields| ==> ReadWell(g, c.fields[i], xs[i], env0)
    requires x.VStruct? && x.ctor == c.pred && Collect(c.fields, BindAll(c.fields, xs, 0, env0)) == Some(x.fields)
    ensures CleanNamed(g, t, x)
  {
    assert |x.fields| == |c.fields|;
    forall i | 0 <= i < |c.fields|
      ensures CleanField(g, c.fields[i], x.fields[i])
      ensures c.fields[i].name != COUNTER || Flagged(c.fields[i]) ==> x.fields[i] == xs[i]
      ensures c.fields[i].name == COUNTER ==>
                forall j :: i < j < |c.fields| && LastVector(c.fields, j) ==>
                  xs[j].VVec? && |xs[j].items| < TWO_32 && x.fields[i] == VI32(|xs[j].items|)
    {
      PickedField(g, c, xs, env0, i, x.fields[i]);
    }
    forall j | 0 <= j < |c.fields| && OpenVector(c.fields[j]) ensures x.fields[j] == xs[j] {
      assert c.fields[j] in c.fields;
    }
    assert BitsAgree(c.fields, x.fields);
    assert CounterAgrees(c.fields, x.fields);
  }

  lemma {:induction false} NamedRead(g: Globals, t: string, data: seq<byte>, pos: nat)
    requires Compiles(g) && Emitted(g, t)
    requires ReadNamed(g, t, data, pos).Got?
    ensures CleanNamed(g, t, ReadNamed(g, t, data, pos).value)
    decreases Left(data, pos), 1, 0
  {
    var c := SingleCtor(g, t).value;
    var x := ReadNamed(g, t, data, pos).value;
    var p := GetU32(data, pos).next;
    assert FindArm(g, t, 0, GetU32(data, pos).value) == Some(c);
    var words := DeclaredWords(c.fields);
    var w := ExecRead(g, LetWords(words), map[], data, p);
    ExecReadAppend(g, LetWords(words), AllReadStmts(g, c.fields, 0).value, map[], data, p);
    WordsRead(g, words, map[], data, p);
    AllFieldStatements(g, c.fields, 0, w.value, data, w.next);
    var xs := FieldsRead(g, c, [], w.value, w.value, data, w.next);
    CleanWhenReadWell(g, t, c, xs, w.value, x);
  }

  // ---- the theorem ----

  /** `x`, written by its emitted `write_to` into a buffer of `off` bytes and read by the
      emitted `read_from` wherever those bytes stand at the same alignment, comes back as
      `x` with nothing left over. */
  ghost predicate ComesBack(g: Globals, t: string, x: Value, off: nat, data: seq<byte>, pos: nat) {
    ReadNamed(g, t, data, pos) == Got(x, pos + |EncNamed(g, t, x, off)|)
  }

  /** Exactly the clean values whose stored flag words are the recomputed ones survive. */
  lemma RoundTrip(g: Globals, t: string, x: Value, off: nat, data: seq<byte>, pos: nat)
    requires Compiles(g) && Emitted(g, t)
    requires pos % 4 == off % 4 && At(data, pos, EncNamed(g, t, x, off))
    ensures ComesBack(g, t, x, off, data, pos) <==> CleanNamed(g, t, x) && FreshNamed(g, t, x) == x
  {
    if CleanNamed(g, t, x) {
      NamedBack(g, t, x, off, data, pos);
    }
    if ComesBack(g, t, x, off, data, pos) {
      NamedRead(g, t, data, pos);
    }
  }
}
