/** `tools/gentl.py`: the TL schema, the Rust statements the generator emits for a
    constructor, and what those statements do. The emitted text is modelled by small
    syntax trees; naming and newtype profiles are left out. */
module Schema {
  import opened Wrappers
  import opened Bytes
  import opened Serialize

  // ---- the schema ----

  datatype TlType =
    | Int | Hash | Long | Double | String | Bytes | Int128 | Int256 | True | Bool
    | Named(name: string)

  /** `word.bit?` in front of a field type. */
  datatype Cond = Cond(word: string, bit: nat)

  datatype Field = Field(name: string, ty: TlType, cond: Option<Cond>, isVector: bool)

  datatype Ctor = Ctor(pred: string, id: u32, typeName: string, fields: seq<Field>)

  /** The module globals the generator consults: constructors by result type, the two memo
      tables and the aliases. The theorems hold for every content of the tables. */
  datatype Globals = Globals(
    types: map<string, seq<Ctor>>,
    generatable: set<string>,
    writable: set<string>,
    aliases: map<string, seq<(u32, string)>>)   // of a type: further ids and the constructor they stand for

  /** The only constructor of a type, when it has exactly one. */
  function SingleCtor(g: Globals, t: string): Option<Ctor> {
    if t in g.types && |g.types[t]| == 1 then Some(g.types[t][0]) else None
  }

  // ---- emitted writers ----

  datatype WExpr =
    | WI32 | WI64 | WDouble | WStr | WBytes | WRaw(n: nat) | WBool | WNamed(t: string)
    | WVec(elem: WExpr)

  datatype WStmt =
    | WId(id: u32)
    | WWord(word: string)          // the presence bits of all fields of that word, or-ed
    | WField(k: nat, e: WExpr)     // self.field
    | WIfSome(k: nat, e: WExpr)    // if let Some(field) = self.field

  /** `gen_field_write`. */
  function GenFieldWrite(g: Globals, f: Field): Option<WExpr> {
    if f.isVector then
      match f.ty
      case Int => Some(WVec(WI32))
      case Hash => Some(WVec(WI32))
      case Long => Some(WVec(WI64))
      case String => Some(WVec(WBytes))
      case Bytes => Some(WVec(WBytes))
      case Named(t) => if t in g.writable then Some(WVec(WNamed(t))) else None
      case _ => None
    else
      match f.ty
      case Int => Some(WI32)
      case Hash => Some(WI32)
      case Long => Some(WI64)
      case Double => Some(WDouble)
      case String => Some(WStr)
      case Bytes => Some(WBytes)
      case Int128 => Some(WRaw(16))
      case Int256 => Some(WRaw(32))
      case Bool => Some(WBool)
      case True => None
      case Named(t) => if t in g.writable then Some(WNamed(t)) else None
  }

  /** The flag words in the order in which the fields first mention them. */
  function UsedWords(fields: seq<Field>): seq<string> {
    if fields == [] then []
    else
      var before := UsedWords(fields[..|fields| - 1]);
      var f := fields[|fields| - 1];
      if f.cond.Some? && f.ty != Hash && f.cond.value.word !in before
      then before + [f.cond.value.word] else before
  }

  function WordStmts(words: seq<string>): (s: seq<WStmt>)
    ensures |s| == |words|
  {
    seq(|words|, i requires 0 <= i < |words| => WWord(words[i]))
  }

  /** The statement for field `k`; `None` when the field cannot be written. */
  function FieldStmts(g: Globals, f: Field, k: nat): Option<seq<WStmt>> {
    if f.ty == Hash then Some([])
    else if f.cond.Some? && f.ty == True then Some([])
    else match GenFieldWrite(g, f)
      case None => None
      case Some(e) => Some([if f.cond.Some? then WIfSome(k, e) else WField(k, e)])
  }

  function AllFieldStmts(g: Globals, fields: seq<Field>, k: nat): Option<seq<WStmt>>
    requires k <= |fields|
    decreases |fields| - k
  {
    if k == |fields| then Some([])
    else match FieldStmts(g, fields[k], k)
      case None => None
      case Some(s) =>
        match AllFieldStmts(g, fields, k + 1)
        case None => None
        case Some(rest) => Some(s + rest)
  }

  /** `gen_write_to`. */
  function GenWriteTo(g: Globals, c: Ctor): Option<seq<WStmt>> {
    match AllFieldStmts(g, c.fields, 0)
    case None => None
    case Some(body) => Some([WId(c.id)] + WordStmts(UsedWords(c.fields)) + body)
  }

  // ---- emitted readers ----

  datatype RExpr =
    | RI32 | RI64 | RDouble | RStr | RBytes | RSkip(n: nat) | RBool | RNamed(t: string)

  datatype Simple =
    | Let(name: string, e: RExpr)              // let name = <read>;
    | LetCount(name: string)                   // let name = r.read_vector_header()?;
    | LetEmpty(name: string)                   // let mut name = Vec::with_capacity(..);
    | PushAll(counter: string, name: string, e: RExpr)  // for _ in 0..counter { name.push(<read>); }

  datatype RStmt =
    | LetWord(name: string)                              // let name = r.read_i32()?;
    | LetBit(name: string, word: string, bit: nat)       // let name = word & (1 << bit) != 0;
    | LetIf(name: string, word: string, bit: nat, body: seq<Simple>)
    | Do(s: Simple)

  /** The local variable every emitted vector read binds its count to. */
  const COUNTER := "n"

  function VectorStmts(name: string, e: RExpr): seq<Simple> {
    [LetCount(COUNTER), LetEmpty(name), PushAll(COUNTER, name, e)]
  }

  /** `gen_field_read`. */
  function GenFieldRead(g: Globals, f: Field): Option<seq<Simple>> {
    if f.isVector then
      match f.ty
      case Int => Some(VectorStmts(f.name, RI32))
      case Hash => Some(VectorStmts(f.name, RI32))
      case Long => Some(VectorStmts(f.name, RI64))
      case String => Some(VectorStmts(f.name, RBytes))
      case Bytes => Some(VectorStmts(f.name, RBytes))
      case Named(t) => if t in g.types && t in g.generatable then Some(VectorStmts(f.name, RNamed(t))) else None
      case _ => None
    else
      match f.ty
      case Int => Some([Let(f.name, RI32)])
      case Hash => Some([Let(f.name, RI32)])
      case Long => Some([Let(f.name, RI64)])
      case Double => Some([Let(f.name, RDouble)])
      case String => Some([Let(f.name, RStr)])
      case Bytes => Some([Let(f.name, RBytes)])
      case Int128 => Some([Let(f.name, RSkip(16))])
      case Int256 => Some([Let(f.name, RSkip(32))])
      case Bool => Some([Let(f.name, RBool)])
      case True => Some([])
      case Named(t) => if t in g.types && t in g.generatable then Some([Let(f.name, RNamed(t))]) else None
  }

  function DeclaredWords(fields: seq<Field>): seq<string> {
    if fields == [] then []
    else (if fields[0].ty == Hash then [fields[0].name] else []) + DeclaredWords(fields[1..])
  }

  function LetWords(words: seq<string>): (s: seq<RStmt>)
    ensures |s| == |words|
  {
    seq(|words|, i requires 0 <= i < |words| => LetWord(words[i]))
  }

  function Lift(body: seq<Simple>): (s: seq<RStmt>)
    ensures |s| == |body|
  {
    seq(|body|, i requires 0 <= i < |body| => Do(body[i]))
  }

  /** The statements for one field after the hoisted flag words. A `true` field without
      a condition has no word to test; rustc would refuse the text. */
  function ReadStmts(g: Globals, f: Field): Option<seq<RStmt>> {
    if f.ty == Hash then Some([])
    else if f.ty == True then
      if f.cond.Some? then Some([LetBit(f.name, f.cond.value.word, f.cond.value.bit)]) else None
    else match GenFieldRead(g, f)
      case None => None
      case Some(body) =>
        if f.cond.Some? then Some([LetIf(f.name, f.cond.value.word, f.cond.value.bit, body)])
        else Some(Lift(body))
  }

  function AllReadStmts(g: Globals, fields: seq<Field>, k: nat): Option<seq<RStmt>>
    requires k <= |fields|
    decreases |fields| - k
  {
    if k == |fields| then Some([])
    else match ReadStmts(g, fields[k])
      case None => None
      case Some(s) =>
        match AllReadStmts(g, fields, k + 1)
        case None => None
        case Some(rest) => Some(s + rest)
  }

  /** `gen_ctor`: all flag words first, then the other fields in order. */
  function GenCtor(g: Globals, c: Ctor): Option<seq<RStmt>> {
    match AllReadStmts(g, c.fields, 0)
    case None => None
    case Some(body) => Some(LetWords(DeclaredWords(c.fields)) + body)
  }

  // ---- values ----

  /** Values of the generated Rust types. Integers and doubles are bit patterns; a struct
      lists its fields in schema order. */
  datatype Value =
    | VI32(w: u32)
    | VI64(x: u64)
    | VDouble(d: u64)
    | VStr(s: seq<byte>)
    | VBytes(b: seq<byte>)
    | VRaw(r: seq<byte>)
    | VBool(v: bool)
    | VVec(items: seq<Value>)
    | VNone
    | VSome(value: Value)
    | VStruct(ctor: string, fields: seq<Value>)

  // ---- flag words ----

  /** `w | (1 << b)`. */
  function OrBit(w: nat, b: nat): nat {
    if b == 0 then (if w % 2 == 1 then w else w + 1) else w % 2 + 2 * OrBit(w / 2, b - 1)
  }

  lemma {:induction false} BitOfOrBit(w: nat, b: nat, c: nat)
    ensures Bit(OrBit(w, b), c) <==> Bit(w, c) || b == c
  {
    if b > 0 {
      var low, high := w % 2, OrBit(w / 2, b - 1);
      var x := low + 2 * high;
      assert x % 2 == low && x / 2 == high;
      if c > 0 {
        BitOfOrBit(w / 2, b - 1, c - 1);
      }
    } else if c > 0 {
      assert OrBit(w, 0) / 2 == w / 2;
    }
  }

  lemma {:induction false} OrBitBound(w: nat, b: nat, n: nat)
    requires w < Pow2(n) && b < n
    ensures OrBit(w, b) < Pow2(n)
  {
    Pow2Half(w, n);
    if b > 0 {
      OrBitBound(w / 2, b - 1, n - 1);
      OrBitStep(w, b);
    }
  }

  lemma Pow2Half(w: nat, n: nat)
    requires w < Pow2(n) && n > 0
    ensures Pow2(n) == 2 * Pow2(n - 1) && w / 2 < Pow2(n - 1)
  {
  }

  lemma OrBitStep(w: nat, b: nat)
    requires b > 0
    ensures OrBit(w, b) <= 1 + 2 * OrBit(w / 2, b - 1)
  {
  }

  /** Whether the writer sets the bit of a conditional field. */
  predicate Present(f: Field, x: Value) {
    if f.ty == True then x == VBool(true) else x.VSome?
  }

  predicate Mentions(f: Field, word: string) {
    f.cond.Some? && f.ty != Hash && f.cond.value.word == word
  }

  /** The word `write_to` computes: the bits of all present fields that mention it. */
  function WordValue(fields: seq<Field>, values: seq<Value>, word: string): nat
    requires |fields| == |values|
  {
    if fields == [] then 0
    else
      var k := |fields| - 1;
      var before := WordValue(fields[..k], values[..k], word);
      if Mentions(fields[k], word) && Present(fields[k], values[k])
      then OrBit(before, fields[k].cond.value.bit) else before
  }

  /** A bit of the computed word is set exactly when some field carrying it is present. */
  lemma {:induction false} WordValueBit(fields: seq<Field>, values: seq<Value>, word: string, b: nat)
    requires |fields| == |values|
    ensures Bit(WordValue(fields, values, word), b) <==>
            exists k :: 0 <= k < |fields| && Mentions(fields[k], word)
                        && fields[k].cond.value.bit == b && Present(fields[k], values[k])
  {
    if fields == [] {
      NoBits(b);
    } else {
      var k := |fields| - 1;
      var fs, vs := fields[..k], values[..k];
      WordValueBit(fs, vs, word, b);
      assert forall i :: 0 <= i < k ==> fs[i] == fields[i] && vs[i] == values[i];
      if Mentions(fields[k], word) && Present(fields[k], values[k]) {
        BitOfOrBit(WordValue(fs, vs, word), fields[k].cond.value.bit, b);
      }
    }
  }

  lemma {:induction false} WordValueBound(fields: seq<Field>, values: seq<Value>, word: string)
    requires |fields| == |values|
    requires forall f :: f in fields && f.cond.Some? ==> f.cond.value.bit < 32
    ensures WordValue(fields, values, word) < TWO_32
  {
    Pow2ThirtyTwo();
    if fields != [] {
      var k := |fields| - 1;
      assert forall f :: f in fields[..k] ==> f in fields;
      WordValueBound(fields[..k], values[..k], word);
      if Mentions(fields[k], word) {
        assert fields[k] in fields;
        OrBitBound(WordValue(fields[..k], values[..k], word), fields[k].cond.value.bit, 32);
      }
    }
  }

  // ---- running an emitted writer ----

  /** The bytes an emitted write expression appends to a buffer of `off` bytes; nothing
      for a value the Rust types exclude. */
  function EncExpr(g: Globals, e: WExpr, x: Value, off: nat): seq<byte>
    decreases x, 2
  {
    match e
    case WI32 => if x.VI32? then Le(x.w, 4) else []
    case WI64 => if x.VI64? then Le(x.x, 8) else []
    case WDouble => if x.VDouble? then Le(x.d, 8) else []
    case WStr => if x.VStr? then EncBytes(x.s, off) else []
    case WBytes => if x.VBytes? then EncBytes(x.b, off) else []
    case WRaw(n) => if x.VRaw? then x.r else []
    case WBool => if x.VBool? then Le(if x.v then BOOL_TRUE else BOOL_FALSE, 4) else []
    case WNamed(t) => EncNamed(g, t, x, off)
    case WVec(elem) =>
      if x.VVec? then EncVectorHeader(|x.items|) + EncItems(g, elem, x.items, off + 8) else []
  }

  function EncItems(g: Globals, e: WExpr, items: seq<Value>, off: nat): seq<byte>
    decreases items, 0
  {
    if items == [] then []
    else
      var a := EncExpr(g, e, items[0], off);
      a + EncItems(g, e, items[1..], off + |a|)
  }

  /** `write_to` of the struct emitted for type `t`. */
  function EncNamed(g: Globals, t: string, x: Value, off: nat): seq<byte>
    decreases x, 1
  {
    match SingleCtor(g, t)
    case None => []
    case Some(c) =>
      match GenWriteTo(g, c)
      case None => []
      case Some(stmts) =>
        if x.VStruct? && |x.fields| == |c.fields| then ExecWrite(g, c, stmts, x, off) else []
  }

  function ExecWrite(g: Globals, c: Ctor, stmts: seq<WStmt>, self: Value, off: nat): seq<byte>
    requires self.VStruct? && |self.fields| == |c.fields|
    decreases self, 0, |stmts|
  {
    if stmts == [] then []
    else
      var a := ExecStmt(g, c, stmts[0], self, off);
      a + ExecWrite(g, c, stmts[1..], self, off + |a|)
  }

  function ExecStmt(g: Globals, c: Ctor, s: WStmt, self: Value, off: nat): seq<byte>
    requires self.VStruct? && |self.fields| == |c.fields|
    decreases self, 0, 0
  {
    match s
    case WId(id) => Le(id, 4)
    case WWord(word) => Le(WordValue(c.fields, self.fields, word), 4)
    case WField(k, e) => if k < |self.fields| then EncExpr(g, e, self.fields[k], off) else []
    case WIfSome(k, e) =>
      if k < |self.fields| && self.fields[k].VSome? then EncExpr(g, e, self.fields[k].value, off) else []
  }

  // ---- running an emitted reader ----

  type Env = map<string, Value>

  function Left(data: seq<byte>, pos: nat): nat {
    if pos <= |data| then |data| - pos else 0
  }

  function ReadExpr(g: Globals, e: RExpr, data: seq<byte>, pos: nat): (r: Step<Value>)
    ensures r.Got? ==> pos < r.next || e.RSkip?
    ensures r.Got? ==> pos <= r.next
    decreases Left(data, pos), 2, 0
  {
    match e
    case RI32 => (match GetU32(data, pos) case Got(v, p) => Got(VI32(v), p) case Fail(er, p) => Fail(er, p))
    case RI64 => (match GetU64(data, pos) case Got(v, p) => Got(VI64(v), p) case Fail(er, p) => Fail(er, p))
    case RDouble => (match GetU64(data, pos) case Got(v, p) => Got(VDouble(v), p) case Fail(er, p) => Fail(er, p))
    case RStr =>
      (match GetBytes(data, pos)
       case Got(v, p) => if Utf8(v) then Got(VStr(v), p) else Fail(Serialization, p)
       case Fail(er, p) => Fail(er, p))
    case RBytes => (match GetBytes(data, pos) case Got(v, p) => Got(VBytes(v), p) case Fail(er, p) => Fail(er, p))
    case RSkip(n) =>
      (match GetRaw(data, pos, n) case Got(v, p) => Got(VRaw(Zeros(n)), p) case Fail(er, p) => Fail(er, p))
    case RBool =>
      (match GetU32(data, pos) case Got(v, p) => Got(VBool(v == BOOL_TRUE), p) case Fail(er, p) => Fail(er, p))
    case RNamed(t) => ReadNamed(g, t, data, pos)
  }

  function ReadItems(g: Globals, e: RExpr, count: nat, data: seq<byte>, pos: nat): (r: Step<seq<Value>>)
    ensures r.Got? ==> |r.value| == count && pos <= r.next
    decreases Left(data, pos), 3, count
  {
    if count == 0 then Got([], pos)
    else match ReadExpr(g, e, data, pos)
      case Fail(er, p) => Fail(er, p)
      case Got(x, p) =>
        match ReadItems(g, e, count - 1, data, p)
        case Fail(er, q) => Fail(er, q)
        case Got(xs, q) => Got([x] + xs, q)
  }

  function ExecSimple(g: Globals, s: Simple, env: Env, data: seq<byte>, pos: nat): (r: Step<Env>)
    ensures r.Got? ==> pos <= r.next
    decreases Left(data, pos), 4, 0
  {
    match s
    case Let(name, e) =>
      (match ReadExpr(g, e, data, pos) case Got(v, p) => Got(env[name := v], p) case Fail(er, p) => Fail(er, p))
    case LetCount(name) =>
      (match GetVectorHeader(data, pos) case Got(v, p) => Got(env[name := VI32(v)], p) case Fail(er, p) => Fail(er, p))
    case LetEmpty(name) => Got(env[name := VVec([])], pos)
    case PushAll(counter, name, e) =>
      if counter in env && env[counter].VI32? && name in env && env[name].VVec? then
        match ReadItems(g, e, env[counter].w, data, pos)
        case Got(xs, p) => Got(env[name := VVec(env[name].items + xs)], p)
        case Fail(er, p) => Fail(er, p)
      else Fail(Other, pos)
  }

  function ExecBody(g: Globals, body: seq<Simple>, env: Env, data: seq<byte>, pos: nat): (r: Step<Env>)
    ensures r.Got? ==> pos <= r.next
    decreases Left(data, pos), 5, |body|
  {
    if body == [] then Got(env, pos)
    else match ExecSimple(g, body[0], env, data, pos)
      case Fail(er, p) => Fail(er, p)
      case Got(env', p) => ExecBody(g, body[1..], env', data, p)
  }

  /** One emitted statement. The variables of a conditional block do not leave it. */
  function ExecRead1(g: Globals, s: RStmt, env: Env, data: seq<byte>, pos: nat): (r: Step<Env>)
    ensures r.Got? ==> pos <= r.next
    decreases Left(data, pos), 6, 0
  {
    match s
    case LetWord(name) =>
      (match GetU32(data, pos) case Got(v, p) => Got(env[name := VI32(v)], p) case Fail(er, p) => Fail(er, p))
    case LetBit(name, word, bit) =>
      if word in env && env[word].VI32? then Got(env[name := VBool(Bit(env[word].w, bit))], pos)
      else Fail(Other, pos)
    case LetIf(name, word, bit, body) =>
      if word in env && env[word].VI32? then
        if Bit(env[word].w, bit) then
          match ExecBody(g, body, env, data, pos)
          case Fail(er, p) => Fail(er, p)
          case Got(inner, p) =>
            if name in inner then Got(env[name := VSome(inner[name])], p) else Fail(Other, p)
        else Got(env[name := VNone], pos)
      else Fail(Other, pos)
    case Do(simple) => ExecSimple(g, simple, env, data, pos)
  }

  function ExecRead(g: Globals, stmts: seq<RStmt>, env: Env, data: seq<byte>, pos: nat): (r: Step<Env>)
    ensures r.Got? ==> pos <= r.next
    decreases Left(data, pos), 7, |stmts|
  {
    if stmts == [] then Got(env, pos)
    else match ExecRead1(g, stmts[0], env, data, pos)
      case Fail(er, p) => Fail(er, p)
      case Got(env', p) => ExecRead(g, stmts[1..], env', data, p)
  }

  lemma {:induction false} ExecReadAppend(g: Globals, a: seq<RStmt>, b: seq<RStmt>, env: Env, data: seq<byte>, pos: nat)
    ensures ExecRead(g, a + b, env, data, pos) ==
            match ExecRead(g, a, env, data, pos)
            case Fail(er, p) => Fail(er, p)
            case Got(env', p) => ExecRead(g, b, env', data, p)
    decreases |a|
  {
    if a == [] {
      assert a + b == b;
    } else {
      assert (a + b)[0] == a[0] && (a + b)[1..] == a[1..] + b;
      match ExecRead1(g, a[0], env, data, pos)
      case Fail(_, _) =>
      case Got(env', p) => ExecReadAppend(g, a[1..], b, env', data, p);
    }
  }

  /** `Type { field, .. }` in shorthand: each field takes the variable of its name. */
  function Collect(fields: seq<Field>, env: Env): Option<seq<Value>> {
    if forall f :: f in fields ==> f.name in env
    then Some(seq(|fields|, i requires 0 <= i < |fields| => env[fields[i].name]))
    else None
  }

  /** The first alias of a constructor; only this one is merged into its arm. */
  function FirstAlias(aliases: seq<(u32, string)>, pred: string): Option<u32> {
    if aliases == [] then None
    else if aliases[0].1 == pred then Some(aliases[0].0)
    else FirstAlias(aliases[1..], pred)
  }

  /** Constructor `c` of type `t` has an arm, and it takes this id. Only a type of several
      constructors has aliases. */
  predicate Takes(g: Globals, t: string, c: Ctor, id: u32)
    requires t in g.types
  {
    GenCtor(g, c).Some? &&
    (c.id == id || (|g.types[t]| > 1 && t in g.aliases && FirstAlias(g.aliases[t], c.pred) == Some(id)))
  }

  /** The arm that takes an id, from constructor `k` on. */
  function FindArm(g: Globals, t: string, k: nat, id: u32): Option<Ctor>
    requires t in g.types && k <= |g.types[t]|
    decreases |g.types[t]| - k
  {
    if k == |g.types[t]| then None
    else if Takes(g, t, g.types[t][k], id) then Some(g.types[t][k])
    else FindArm(g, t, k + 1, id)
  }

  /** The body of `read_from` after the constructor id. */
  function ReadCtor(g: Globals, c: Ctor, data: seq<byte>, pos: nat): (r: Step<Value>)
    ensures r.Got? ==> pos <= r.next
    decreases Left(data, pos), 8, 0
  {
    match GenCtor(g, c)
    case None => Fail(Other, pos)
    case Some(stmts) =>
      match ExecRead(g, stmts, map[], data, pos)
      case Fail(er, p) => Fail(er, p)
      case Got(env, p) =>
        match Collect(c.fields, env)
        case None => Fail(Other, p)
        case Some(values) => Got(VStruct(c.pred, values), p)
  }

  /** `read_from` of the struct or enum emitted for type `t`. */
  function ReadNamed(g: Globals, t: string, data: seq<byte>, pos: nat): (r: Step<Value>)
    ensures r.Got? ==> pos < r.next
    decreases Left(data, pos), 1, 0
  {
    if t !in g.types then Fail(Other, pos)
    else match GetU32(data, pos)
      case Fail(er, p) => Fail(er, p)
      case Got(id, p) =>
        match FindArm(g, t, 0, id)
        case None => Fail(Serialization, p)
        case Some(c) => ReadCtor(g, c, data, p)
  }
}
