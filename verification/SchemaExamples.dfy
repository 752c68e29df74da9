/** Two concrete schemas at the edges of the round-trip theorem: one it covers, where a
    value is nevertheless lost, and one it excludes, where every value is. */
module SchemaExamples {
  import opened Wrappers
  import opened Bytes
  import opened Serialize
  import opened Schema
  import opened SchemaRoundTrip

  const COUNTED := Ctor("t", 1, "T", [Field("n", Int, None, false), Field("v", Int, None, true)])

  /** `t n:int v:Vector<int> = T`: the emitted `let n` of the vector hides the field `n`. */
  lemma CountedGenerated(g: Globals)
    requires g.types == map["T" := [COUNTED]]
    ensures Emitted(g, "T") && Compiles(g)
  {
    var c := COUNTED;
    var a, b := c.fields[0], c.fields[1];
    assert SingleCtor(g, "T") == Some(c);
    assert AllReadStmts(g, c.fields, 2) == Some([]) && AllFieldStmts(g, c.fields, 2) == Some([]);
    assert AllReadStmts(g, c.fields, 1).Some? && AllFieldStmts(g, c.fields, 1).Some?;
    assert AllReadStmts(g, c.fields, 0).Some? && AllFieldStmts(g, c.fields, 0).Some?;
    assert c.fields[1..] == [b] && [b][1..] == [] && DeclaredWords([b]) == [];
    assert c.fields[..1] == [a] && [a][..0] == [] && UsedWords([a]) == [];
    assert UsedWords(c.fields) == [];
  }

  /** Field `n` comes back as the length of the vector after it, whatever was written. */
  lemma CounterCaptured(g: Globals, n: u32)
    requires g.types == map["T" := [COUNTED]]
    ensures var x := VStruct("t", [VI32(n), VVec([])]);
            ComesBack(g, "T", x, 0, EncNamed(g, "T", x, 0), 0) <==> n == 0
  {
    hide EncNamed, ReadNamed, CleanNamed, FreshNamed, ComesBack, Compiles, Emitted;
    CountedGenerated(g);
    OnlyEmptyStays(g, n);
    var x := VStruct("t", [VI32(n), VVec([])]);
    var data := EncNamed(g, "T", x, 0);
    assert data[0..|data|] == data;
    RoundTrip(g, "T", x, 0, data, 0);
  }

  lemma OnlyEmptyStays(g: Globals, n: u32)
    requires g.types == map["T" := [COUNTED]]
    ensures var x := VStruct("t", [VI32(n), VVec([])]);
            CleanNamed(g, "T", x) && FreshNamed(g, "T", x) == x <==> n == 0
  {
    var c := COUNTED;
    var x := VStruct("t", [VI32(n), VVec([])]);
    assert LastVector(c.fields, 1);
    assert c.fields[0].name == COUNTER && x.fields[0] == VI32(n) && x.fields[1] == VVec([]);
    assert CounterAgrees(c.fields, x.fields) <==> n == 0;
    if n == 0 {
      EmptyStays(g);
    }
  }

  lemma EmptyStays(g: Globals)
    requires g.types == map["T" := [COUNTED]]
    ensures var x := VStruct("t", [VI32(0), VVec([])]);
            CleanField(g, COUNTED.fields[0], x.fields[0]) && CleanField(g, COUNTED.fields[1], x.fields[1])
            && FreshNamed(g, "T", x) == x
  {
    var c := COUNTED;
    var x := VStruct("t", [VI32(0), VVec([])]);
    assert FreshField(g, c.fields[0], x.fields[0]) == x.fields[0];
    assert FreshField(g, c.fields[1], x.fields[1]) == x.fields[1] by {
      assert FreshItems(g, WI32, []) == [];
    }
  }

  const IDLE := Ctor("t", 1, "T", [Field("flags", Hash, None, false), Field("a", Int, None, false)])

  /** `t flags:# a:int = T`: the reader expects the flag word, the writer leaves it out. */
  lemma UnusedWord(g: Globals, flags: u32, a: u32)
    requires g.types == map["T" := [IDLE]]
    ensures DeclaredWords(IDLE.fields) == ["flags"] && UsedWords(IDLE.fields) == []
    ensures var x := VStruct("t", [VI32(flags), VI32(a)]);
            var data := EncNamed(g, "T", x, 0);
            |data| == 8 && ReadNamed(g, "T", data, 0).Fail?
  {
    var c := IDLE;
    var x := VStruct("t", [VI32(flags), VI32(a)]);
    var h, f := c.fields[0], c.fields[1];
    assert c.fields[1..] == [f] && [f][1..] == [] && DeclaredWords([f]) == [];
    assert c.fields[..1] == [h] && [h][..0] == [] && UsedWords([h]) == [];
    IdleWritten(g, x, flags, a);
    var data := Le(1, 4) + Le(a, 4);
    assert data[0..4] == Le(1, 4) && data[4..8] == Le(a, 4);
    ReadBackU32(data, 0, 1);
    ReadBackU32(data, 4, a);
    IdleRead(g, data, a);
  }

  lemma IdleWritten(g: Globals, x: Value, flags: u32, a: u32)
    requires g.types == map["T" := [IDLE]] && x == VStruct("t", [VI32(flags), VI32(a)])
    requires UsedWords(IDLE.fields) == []
    ensures EncNamed(g, "T", x, 0) == Le(1, 4) + Le(a, 4)
  {
    var c := IDLE;
    var body := [WField(1, WI32)];
    assert AllFieldStmts(g, c.fields, 2) == Some([]);
    assert AllFieldStmts(g, c.fields, 1) == Some(body + []);
    assert AllFieldStmts(g, c.fields, 0) == Some([] + (body + []));
    assert WordStmts([]) == [];
    var stmts := [WId(1), WField(1, WI32)];
    assert [WId(1)] + WordStmts([]) + ([] + (body + [])) == stmts;
    assert GenWriteTo(g, c) == Some(stmts);
    assert stmts[1..] == body && body[1..] == [];
    assert EncExpr(g, WI32, VI32(a), 4) == Le(a, 4);
    assert ExecStmt(g, c, body[0], x, 4) == Le(a, 4);
    assert ExecWrite(g, c, [], x, 8) == [];
    assert ExecWrite(g, c, body, x, 4) == Le(a, 4) + [];
    assert ExecWrite(g, c, stmts, x, 0) == Le(1, 4) + ExecWrite(g, c, body, x, 4);
  }

  lemma IdleRead(g: Globals, data: seq<byte>, a: u32)
    requires g.types == map["T" := [IDLE]] && |data| == 8
    requires GetU32(data, 0) == Got(1, 4) && GetU32(data, 4) == Got(a, 8)
    requires DeclaredWords(IDLE.fields) == ["flags"]
    ensures ReadNamed(g, "T", data, 0).Fail?
  {
    var c := IDLE;
    var word, rest := LetWord("flags"), Do(Let("a", RI32));
    assert AllReadStmts(g, c.fields, 2) == Some([]);
    assert ReadStmts(g, c.fields[1]) == Some([rest]) by {
      assert Lift([Let("a", RI32)]) == [rest];
    }
    assert AllReadStmts(g, c.fields, 1) == Some([rest] + []);
    assert AllReadStmts(g, c.fields, 0) == Some([] + ([rest] + []));
    assert LetWords(["flags"]) == [word];
    var stmts := [word, rest];
    assert [word] + ([] + ([rest] + [])) == stmts;
    assert GenCtor(g, c) == Some(stmts);
    var none: Env := map[];
    var env := none["flags" := VI32(a)];
    assert stmts[1..] == [rest];
    assert ExecRead1(g, word, none, data, 4) == Got(env, 8);
    assert ReadExpr(g, RI32, data, 8).Fail?;
    assert ExecRead1(g, rest, env, data, 8).Fail?;
    assert ExecRead(g, [rest], env, data, 8).Fail?;
    assert ExecRead(g, stmts, none, data, 4) == ExecRead(g, [rest], env, data, 8);
    assert ReadCtor(g, c, data, 4).Fail?;
    assert FindArm(g, "T", 0, 1) == Some(IDLE);
  }
}
