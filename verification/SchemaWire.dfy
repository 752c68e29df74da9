/** The wire side of the emitted code: which constructor `read_from` takes, and where
    `write_to` puts each byte. */
module SchemaWire {
  import opened Wrappers
  import opened Bytes
  import opened Serialize
  import opened Schema
  import opened SchemaRoundTrip

  // ---- which constructor is read ----

  /** The id is the first alias listed for the constructor. */
  ghost predicate IsAlias(aliases: seq<(u32, string)>, pred: string, id: u32) {
    exists i :: AliasAt(aliases, pred, id, i)
  }

  predicate AliasAt(aliases: seq<(u32, string)>, pred: string, id: u32, i: int) {
    0 <= i < |aliases| && aliases[i] == (id, pred) && forall j :: 0 <= j < i ==> aliases[j].1 != pred
  }

  lemma {:induction false} FirstAliasMeans(aliases: seq<(u32, string)>, pred: string, id: u32)
    ensures FirstAlias(aliases, pred) == Some(id) <==> IsAlias(aliases, pred, id)
  {
    if aliases != [] {
      FirstAliasMeans(aliases[1..], pred, id);
      if aliases[0].1 == pred {
        assert aliases[0].0 == id ==> AliasAt(aliases, pred, id, 0);
      } else {
        if i :| AliasAt(aliases[1..], pred, id, i) {
          assert AliasAt(aliases, pred, id, i + 1);
        }
        if i :| AliasAt(aliases, pred, id, i) {
          assert AliasAt(aliases[1..], pred, id, i - 1);
        }
      }
    }
  }

  /** Constructor `k` of a type has code, and this id is its own or, in a type of several, its
      alias. */
  ghost predicate ArmFor(g: Globals, t: string, k: nat, id: u32)
    requires t in g.types
  {
    k < |g.types[t]| && GenCtor(g, g.types[t][k]).Some? &&
    var c := g.types[t][k];
    c.id == id || (|g.types[t]| > 1 && t in g.aliases && IsAlias(g.aliases[t], c.pred, id))
  }

  lemma TakesMeans(g: Globals, t: string, k: nat, id: u32)
    requires t in g.types && k < |g.types[t]|
    ensures Takes(g, t, g.types[t][k], id) <==> ArmFor(g, t, k, id)
  {
    hide GenCtor, FirstAlias, IsAlias;
    if t in g.aliases {
      FirstAliasMeans(g.aliases[t], g.types[t][k].pred, id);
    }
  }

  lemma {:induction false} ArmFound(g: Globals, t: string, from: nat, k: nat, id: u32)
    requires t in g.types && from <= k && ArmFor(g, t, k, id)
    requires forall j: nat :: from <= j < k ==> !ArmFor(g, t, j, id)
    ensures FindArm(g, t, from, id) == Some(g.types[t][k])
    decreases k - from
  {
    TakesMeans(g, t, from, id);
    hide Takes, ArmFor;
    if from < k {
      ArmFound(g, t, from + 1, k, id);
    }
  }

  lemma {:induction false} NoArm(g: Globals, t: string, from: nat, id: u32)
    requires t in g.types && from <= |g.types[t]|
    requires forall j: nat :: from <= j < |g.types[t]| ==> !ArmFor(g, t, j, id)
    ensures FindArm(g, t, from, id) == None
    decreases |g.types[t]| - from
  {
    if from < |g.types[t]| {
      TakesMeans(g, t, from, id);
      hide Takes, ArmFor;
      NoArm(g, t, from + 1, id);
    }
  }

  /** The emitted reader of a type takes the first constructor for the id on the wire and reads
      its fields after the id. */
  lemma ReadByArm(g: Globals, t: string, k: nat, id: u32, data: seq<byte>, pos: nat)
    requires t in g.types && At(data, pos, Le(id, 4)) && ArmFor(g, t, k, id)
    requires forall j: nat :: j < k ==> !ArmFor(g, t, j, id)
    ensures ReadNamed(g, t, data, pos) == ReadCtor(g, g.types[t][k], data, pos + 4)
  {
    ReadBackU32(data, pos, id);
    ArmFound(g, t, 0, k, id);
    hide ReadCtor, FindArm, ArmFor, GetU32;
  }

  /** An id of no constructor is refused right after it. */
  lemma UnknownId(g: Globals, t: string, id: u32, data: seq<byte>, pos: nat)
    requires t in g.types && At(data, pos, Le(id, 4))
    requires forall j: nat :: j < |g.types[t]| ==> !ArmFor(g, t, j, id)
    ensures ReadNamed(g, t, data, pos) == Fail(Serialization, pos + 4)
  {
    ReadBackU32(data, pos, id);
    NoArm(g, t, 0, id);
    hide ReadCtor, FindArm, ArmFor, GetU32;
  }

  /** In a type whose constructors all have code, with distinct ids and no alias, each
      constructor is found by its own id. */
  lemma EnumRead(g: Globals, t: string, k: nat, data: seq<byte>, pos: nat)
    requires t in g.types && t !in g.aliases && k < |g.types[t]|
    requires forall j :: 0 <= j < |g.types[t]| ==> GenCtor(g, g.types[t][j]).Some?
    requires forall i, j :: 0 <= i < j < |g.types[t]| ==> g.types[t][i].id != g.types[t][j].id
    requires At(data, pos, Le(g.types[t][k].id, 4))
    ensures ReadNamed(g, t, data, pos) == ReadCtor(g, g.types[t][k], data, pos + 4)
  {
    hide GenCtor, ReadCtor;
    var id := g.types[t][k].id;
    forall j: nat | j < k ensures !ArmFor(g, t, j, id) {
      assert g.types[t][j].id != id;
    }
    ReadByArm(g, t, k, id, data, pos);
  }

  // ---- where the bytes go ----

  /** The scalar types on the wire. */
  lemma ScalarForms(g: Globals, w: u32, x: u64, s: seq<byte>, raw: seq<byte>, off: nat)
    ensures EncExpr(g, WI32, VI32(w), off) == [w % 256, w / 256 % 256, w / 0x1_0000 % 256, w / 0x100_0000 % 256]
    ensures EncExpr(g, WI64, VI64(x), off) == EncExpr(g, WDouble, VDouble(x), off)
            == Le(x % TWO_32, 4) + Le(x / TWO_32, 4)
    ensures EncExpr(g, WStr, VStr(s), off) == EncExpr(g, WBytes, VBytes(s), off) == EncBytes(s, off)
    ensures EncExpr(g, WRaw(|raw|), VRaw(raw), off) == raw
    ensures EncExpr(g, WBool, VBool(true), off) == [0xb5, 0x75, 0x72, 0x99]
    ensures EncExpr(g, WBool, VBool(false), off) == [0x37, 0x97, 0x79, 0xbc]
  {
    LeFour(w);
    LeFour(BOOL_TRUE);
    LeFour(BOOL_FALSE);
    LeEight(x);
    hide Le, EncBytes;
  }

  /** A vector: its constructor, the count, and the items one after the other. */
  lemma VectorForm(g: Globals, e: WExpr, items: seq<Value>, off: nat)
    requires |items| < TWO_31
    ensures EncExpr(g, WVec(e), VVec(items), off)
            == [0x15, 0xc4, 0xb5, 0x1c] + Le(|items|, 4) + EncItems(g, e, items, off + 8)
    ensures items == [] ==> EncItems(g, e, items, off) == []
    ensures items != [] ==>
              var a := EncExpr(g, e, items[0], off);
              EncItems(g, e, items, off) == a + EncItems(g, e, items[1..], off + |a|)
  {
    LeFour(VECTOR);
    SmallCount(|items|);
    hide Le;
  }

  lemma SmallCount(n: nat)
    requires n < TWO_31
    ensures U32Of(AsI32(n)) == n
  {
  }

  /** The fields of a struct from number `k` on, each where the one before ended. */
  function FieldsFrom(g: Globals, c: Ctor, x: Value, k: nat, off: nat): seq<byte>
    requires x.VStruct? && |x.fields| == |c.fields| && k <= |c.fields|
    decreases |c.fields| - k
  {
    if k == |c.fields| then []
    else
      var a := FieldEnc(g, c.fields[k], x.fields[k], off);
      a + FieldsFrom(g, c, x, k + 1, off + |a|)
  }

  lemma {:induction false} FieldsInOrder(g: Globals, c: Ctor, x: Value, k: nat, off: nat)
    requires x.VStruct? && |x.fields| == |c.fields| && k <= |c.fields| && AllFieldStmts(g, c.fields, k).Some?
    ensures ExecWrite(g, c, AllFieldStmts(g, c.fields, k).value, x, off) == FieldsFrom(g, c, x, k, off)
    decreases |c.fields| - k
  {
    if k < |c.fields| {
      FieldsWritten(g, c, x, k, off);
      hide ExecWrite, FieldEnc, AllFieldStmts;
      var a := FieldEnc(g, c.fields[k], x.fields[k], off);
      FieldsInOrder(g, c, x, k + 1, off + |a|);
    }
  }

  /** The flag words one after the other. */
  function WordBytes(c: Ctor, x: Value, words: seq<string>): seq<byte>
    requires x.VStruct? && |x.fields| == |c.fields|
  {
    if words == [] then [] else Le(WordValue(c.fields, x.fields, words[0]), 4) + WordBytes(c, x, words[1..])
  }

  lemma {:induction false} WordsInOrder(g: Globals, c: Ctor, x: Value, words: seq<string>, off: nat)
    requires x.VStruct? && |x.fields| == |c.fields|
    ensures ExecWrite(g, c, WordStmts(words), x, off) == WordBytes(c, x, words)
    decreases |words|
  {
    if words != [] {
      assert WordStmts(words)[1..] == WordStmts(words[1..]) && WordStmts(words)[0] == WWord(words[0]);
      hide WordValue, Le, WordStmts;
      WordsInOrder(g, c, x, words[1..], off + 4);
    }
  }

  /** What `write_to` appends for a struct: the constructor id, the flag words in the order of
      first use, and the fields in the order of the schema. */
  lemma StructForm(g: Globals, t: string, c: Ctor, x: Value, off: nat)
    requires SingleCtor(g, t) == Some(c) && GenWriteTo(g, c).Some? && x.VStruct? && |x.fields| == |c.fields|
    ensures var words := WordBytes(c, x, UsedWords(c.fields));
            EncNamed(g, t, x, off) == Le(c.id, 4) + words + FieldsFrom(g, c, x, 0, off + 4 + |words|)
  {
    hide *;
    StructStmts(g, t, c, x, off);
    var id, ws, body := [WId(c.id)], WordStmts(UsedWords(c.fields)), AllFieldStmts(g, c.fields, 0).value;
    WordsInOrder(g, c, x, UsedWords(c.fields), off + 4);
    var words := WordBytes(c, x, UsedWords(c.fields));
    FieldsInOrder(g, c, x, 0, off + 4 + |words|);
    ExecWriteAppend(g, c, id + ws, body, x, off);
    ExecWriteAppend(g, c, id, ws, x, off);
    WriteId(g, c, x, off);
  }

  lemma StructStmts(g: Globals, t: string, c: Ctor, x: Value, off: nat)
    requires SingleCtor(g, t) == Some(c) && GenWriteTo(g, c).Some? && x.VStruct? && |x.fields| == |c.fields|
    ensures AllFieldStmts(g, c.fields, 0).Some?
    ensures EncNamed(g, t, x, off) ==
            ExecWrite(g, c, [WId(c.id)] + WordStmts(UsedWords(c.fields)) + AllFieldStmts(g, c.fields, 0).value, x, off)
  {
    hide ExecWrite;
  }

  /** What a field adds: nothing for a flag word or an absent value, else the form of its type. */
  lemma FieldForm(g: Globals, f: Field, x: Value, off: nat)
    requires GenFieldWrite(g, f).Some?
    ensures f.ty == Hash || (f.cond.Some? && !x.VSome?) ==> FieldEnc(g, f, x, off) == []
    ensures f.ty != Hash && f.cond.Some? && x.VSome? ==>
              FieldEnc(g, f, x, off) == EncExpr(g, GenFieldWrite(g, f).value, x.value, off)
    ensures f.ty != Hash && f.cond.None? ==> FieldEnc(g, f, x, off) == EncExpr(g, GenFieldWrite(g, f).value, x, off)
  {
    hide EncExpr;
  }

  /** The form of each writable type. */
  lemma TypeForms(g: Globals, name: string, cond: Option<Cond>)
    ensures GenFieldWrite(g, Field(name, Int, cond, false)) == Some(WI32)
    ensures GenFieldWrite(g, Field(name, Long, cond, false)) == Some(WI64)
    ensures GenFieldWrite(g, Field(name, Double, cond, false)) == Some(WDouble)
    ensures GenFieldWrite(g, Field(name, String, cond, false)) == Some(WStr)
    ensures GenFieldWrite(g, Field(name, TlType.Bytes, cond, false)) == Some(WBytes)
    ensures GenFieldWrite(g, Field(name, Int128, cond, false)) == Some(WRaw(16))
    ensures GenFieldWrite(g, Field(name, Int256, cond, false)) == Some(WRaw(32))
    ensures GenFieldWrite(g, Field(name, TlType.Bool, cond, false)) == Some(WBool)
    ensures GenFieldWrite(g, Field(name, Int, cond, true)) == Some(WVec(WI32))
    ensures GenFieldWrite(g, Field(name, Long, cond, true)) == Some(WVec(WI64))
  {
  }
}
