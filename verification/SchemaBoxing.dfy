/** `compute_needs_box` of `tools/gentl.py`: which nested fields the emitted Rust types must
    put behind a pointer so that every type has a finite size. */
module SchemaBoxing {
  import opened Wrappers
  import opened Schema

  type Graph = map<string, set<string>>

  /** The types a constructor mentions, when the schema defines them. */
  function Mentioned(types: map<string, seq<Ctor>>, fields: seq<Field>): set<string> {
    set f | f in fields && f.ty.Named? && f.ty.name in types :: f.ty.name
  }

  function Edges(types: map<string, seq<Ctor>>): (e: Graph)
    ensures e.Keys == types.Keys
    ensures Closed(e)
  {
    map t | t in types :: set c, u | c in types[t] && u in Mentioned(types, c.fields) :: u
  }

  /** A type leads to the defined types its constructors mention, in a vector or not. */
  lemma EdgesExactly(types: map<string, seq<Ctor>>, t: string, u: string)
    ensures t in Edges(types) && u in Edges(types)[t] <==>
            t in types && u in types && exists c, f :: c in types[t] && f in c.fields && f.ty == Named(u)
  {
    if t in types && u in Edges(types)[t] {
      var c :| c in types[t] && u in Mentioned(types, c.fields);
      var f :| f in c.fields && f.ty.Named? && f.ty.name == u;
    }
    if t in types && u in types && exists c, f :: c in types[t] && f in c.fields && f.ty == Named(u) {
      var c, f :| c in types[t] && f in c.fields && f.ty == Named(u);
      assert u in Mentioned(types, c.fields);
    }
  }

  predicate Closed(e: Graph) {
    forall t :: t in e ==> e[t] <= e.Keys
  }

  ghost predicate Path(e: Graph, p: seq<string>) {
    |p| >= 2 && forall i :: 0 <= i < |p| - 1 ==> p[i] in e && p[i + 1] in e[p[i]]
  }

  /** `u` is reached from `t` by at least one edge. */
  ghost predicate Reaches(e: Graph, t: string, u: string) {
    exists p :: Path(e, p) && p[0] == t && p[|p| - 1] == u
  }

  lemma EdgeReaches(e: Graph, t: string, u: string)
    requires t in e && u in e[t]
    ensures Reaches(e, t, u)
  {
    assert Path(e, [t, u]);
  }

  lemma ReachesTransitive(e: Graph, t: string, u: string, v: string)
    requires Reaches(e, t, u) && Reaches(e, u, v)
    ensures Reaches(e, t, v)
  {
    var p :| Path(e, p) && p[0] == t && p[|p| - 1] == u;
    var q :| Path(e, q) && q[0] == u && q[|q| - 1] == v;
    var r := p + q[1..];
    forall i | 0 <= i < |r| - 1 ensures r[i] in e && r[i + 1] in e[r[i]] {
      if i >= |p| - 1 {
        assert r[i] == q[i - |p| + 1] && r[i + 1] == q[i - |p| + 2];
      }
    }
    assert Path(e, r) && r[0] == t && r[|r| - 1] == v;
  }

  /** A set that is closed under edges and holds the first step holds the whole path. */
  lemma {:induction false} StaysInside(e: Graph, p: seq<string>, s: set<string>)
    requires Path(e, p) && e[p[0]] <= s
    requires forall u :: u in s && u in e ==> e[u] <= s
    ensures p[|p| - 1] in s
  {
    if |p| > 2 {
      assert p[1] in s && p[1] in e;
      StaysInside(e, p[1..], s);
    }
  }

  // ---- the worklist ----

  method ListOf(s: set<string>) returns (list: seq<string>)
    ensures forall u :: u in list <==> u in s
  {
    list := [];
    var rest := s;
    while rest != {}
      invariant rest <= s
      invariant forall u :: u in s <==> u in list || u in rest
      decreases rest
    {
      var u :| u in rest;
      list, rest := list + [u], rest - {u};
    }
  }

  /** The depth-first closure from one type: exactly the types reached from it. */
  method Closure(e: Graph, t: string) returns (seen: set<string>)
    requires Closed(e) && t in e
    ensures forall u :: u in seen <==> Reaches(e, t, u)
  {
    var work := ListOf(e[t]);
    seen := {};
    forall u | u in work ensures Reaches(e, t, u) { EdgeReaches(e, t, u); }
    while work != []
      invariant seen <= e.Keys && forall u :: u in work ==> u in e
      invariant forall u :: u in seen || u in work ==> Reaches(e, t, u)
      invariant forall u :: u in e[t] ==> u in seen || u in work
      invariant forall u, v :: u in seen && v in e[u] ==> v in seen || v in work
      decreases e.Keys - seen, |work|
    {
      var u := work[|work| - 1];
      ghost var before := work;
      work := work[..|work| - 1];
      assert forall v :: v in before ==> v in work || v == u;
      if u !in seen {
        seen := seen + {u};
        var more := ListOf(e[u]);
        forall v | v in more ensures Reaches(e, t, v) {
          EdgeReaches(e, u, v);
          ReachesTransitive(e, t, u, v);
        }
        work := work + more;
      }
    }
    forall u | Reaches(e, t, u) ensures u in seen {
      var p :| Path(e, p) && p[0] == t && p[|p| - 1] == u;
      StaysInside(e, p, seen);
    }
  }

  /** The edge lies on a cycle. */
  ghost predicate OnCycle(e: Graph, t: string, u: string) {
    t in e && u in e[t] && (u == t || Reaches(e, u, t))
  }

  /** `compute_needs_box`: an edge is boxed exactly when it lies on a cycle. */
  method ComputeNeedsBox(types: map<string, seq<Ctor>>) returns (boxed: set<(string, string)>)
    ensures forall t, u :: (t, u) in boxed <==> OnCycle(Edges(types), t, u)
  {
    var e := Edges(types);
    var reach: map<string, set<string>> := map[];
    var todo := e.Keys;
    while todo != {}
      invariant todo <= e.Keys && reach.Keys == e.Keys - todo
      invariant forall t, u :: t in reach ==> (u in reach[t] <==> Reaches(e, t, u))
      decreases todo
    {
      var t :| t in todo;
      var seen := Closure(e, t);
      reach := reach[t := seen];
      todo := todo - {t};
    }
    boxed := {};
    todo := e.Keys;
    while todo != {}
      invariant todo <= e.Keys
      invariant forall t, u :: (t, u) in boxed <==> t !in todo && OnCycle(e, t, u)
      decreases todo
    {
      var t :| t in todo;
      var outs := e[t];
      ghost var before := boxed;
      while outs != {}
        invariant outs <= e[t]
        invariant forall x, u :: (x, u) in boxed <==>
                    (x, u) in before || (x == t && u in e[t] - outs && OnCycle(e, t, u))
        decreases outs
      {
        var u :| u in outs;
        if u == t || t in reach[u] {
          boxed := boxed + {(t, u)};
        }
        outs := outs - {u};
      }
      todo := todo - {t};
    }
  }

  // ---- what boxing buys ----

  /** The types that follow `t` when it is laid out, itself included. */
  ghost function After(e: Graph, t: string): set<string>
    requires Closed(e)
  {
    {t} + set u | u in e.Keys && Reaches(e, t, u)
  }

  /** Along an edge that is not boxed, strictly fewer types remain. */
  lemma InlineShrinks(e: Graph, t: string, u: string)
    requires Closed(e) && t in e && u in e[t] && !OnCycle(e, t, u)
    ensures After(e, u) < After(e, t)
  {
    EdgeReaches(e, t, u);
    forall v | v in After(e, u) ensures v in After(e, t) {
      if v != u {
        ReachesTransitive(e, t, u, v);
      }
    }
    assert t !in After(e, u);
  }

  /** A type whose value contains `u` in place. */
  predicate Inline(types: map<string, seq<Ctor>>, boxed: set<(string, string)>, t: string, u: string) {
    && t in types && (t, u) !in boxed
    && exists c, f :: c in types[t] && f in c.fields && f.ty == Named(u) && !f.isVector && u in types
  }

  lemma InlineIsEdge(types: map<string, seq<Ctor>>, boxed: set<(string, string)>, t: string, u: string)
    requires Inline(types, boxed, t, u)
    ensures u in Edges(types)[t]
  {
    var c, f :| c in types[t] && f in c.fields && f.ty == Named(u) && !f.isVector && u in types;
    assert u in Mentioned(types, c.fields);
  }

  /** A chain of types, each containing the next in place. */
  ghost predicate InlineChain(types: map<string, seq<Ctor>>, boxed: set<(string, string)>, chain: seq<string>) {
    && chain != [] && chain[0] in types
    && forall i :: 0 <= i < |chain| - 1 ==> Inline(types, boxed, chain[i], chain[i + 1])
  }

  /** Edges that close no cycle can only be followed as often as there are types. */
  lemma {:induction false} ChainBound(e: Graph, chain: seq<string>)
    requires Closed(e) && chain != [] && chain[0] in e
    requires forall i :: 0 <= i < |chain| - 1 ==>
               chain[i] in e && chain[i + 1] in e[chain[i]] && !OnCycle(e, chain[i], chain[i + 1])
    ensures |chain| <= |After(e, chain[0])| <= |e|
  {
    assert After(e, chain[0]) <= e.Keys;
    SubsetSize(After(e, chain[0]), e.Keys);
    if |chain| > 1 {
      var rest := chain[1..];
      InlineShrinks(e, chain[0], chain[1]);
      assert rest[0] in e;
      forall i | 0 <= i < |rest| - 1
        ensures rest[i] in e && rest[i + 1] in e[rest[i]] && !OnCycle(e, rest[i], rest[i + 1])
      {
        assert rest[i] == chain[i + 1] && rest[i + 1] == chain[i + 2];
      }
      ChainBound(e, rest);
      SmallerSet(After(e, chain[1]), After(e, chain[0]));
    } else {
      assert chain[0] in After(e, chain[0]);
    }
  }

  /** No chain of types, each containing the next in place, is longer than the schema has
      types: every emitted type has a finite size. */
  lemma FiniteSize(types: map<string, seq<Ctor>>, boxed: set<(string, string)>, chain: seq<string>)
    requires forall t, u :: (t, u) in boxed <==> OnCycle(Edges(types), t, u)
    requires InlineChain(types, boxed, chain)
    ensures |chain| <= |After(Edges(types), chain[0])| <= |types|
  {
    var e := Edges(types);
    forall i | 0 <= i < |chain| - 1
      ensures chain[i] in e && chain[i + 1] in e[chain[i]] && !OnCycle(e, chain[i], chain[i + 1])
    {
      assert Inline(types, boxed, chain[i], chain[i + 1]);
      InlineIsEdge(types, boxed, chain[i], chain[i + 1]);
    }
    SameKeys(e, types);
    ChainBound(e, chain);
  }

  lemma SameKeys<A, B>(a: map<string, A>, b: map<string, B>)
    requires a.Keys == b.Keys
    ensures |a| == |b|
  {
    assert |a| == |a.Keys| && |b| == |b.Keys|;
  }

  // ---- which boxes are needed ----

  /** Containment in place, under any choice of boxes. */
  ghost function InlineGraph(types: map<string, seq<Ctor>>, boxed: set<(string, string)>): (e: Graph)
    ensures e.Keys == types.Keys && Closed(e)
    ensures forall t, u :: t in e ==> (u in e[t] <==> Inline(types, boxed, t, u))
  {
    map t | t in types :: set u | u in types && Inline(types, boxed, t, u)
  }

  ghost predicate LongChain(types: map<string, seq<Ctor>>, boxed: set<(string, string)>, n: nat) {
    exists chain :: InlineChain(types, boxed, chain) && |chain| >= n
  }

  /** Some type would have to be larger than any bound. */
  ghost predicate Endless(types: map<string, seq<Ctor>>, boxed: set<(string, string)>) {
    forall n: nat :: LongChain(types, boxed, n)
  }

  /** How often a chain goes along the edge from `t` to `u`. */
  ghost function Uses(chain: seq<string>, t: string, u: string): nat {
    if |chain| < 2 then 0
    else (if chain[0] == t && chain[1] == u then 1 else 0) + Uses(chain[1..], t, u)
  }

  ghost predicate UsedOften(types: map<string, seq<Ctor>>, boxed: set<(string, string)>, t: string, u: string, n: nat) {
    exists chain :: InlineChain(types, boxed, chain) && Uses(chain, t, u) >= n
  }

  ghost predicate EndlessAlong(types: map<string, seq<Ctor>>, boxed: set<(string, string)>, t: string, u: string) {
    forall n: nat :: UsedOften(types, boxed, t, u, n)
  }

  /** For any choice of boxes, some type is endless exactly when containment in place has a
      cycle. */
  lemma EndlessExactly(types: map<string, seq<Ctor>>, boxed: set<(string, string)>)
    ensures Endless(types, boxed) <==> exists t :: Reaches(InlineGraph(types, boxed), t, t)
  {
    var e := InlineGraph(types, boxed);
    if t :| Reaches(e, t, t) {
      var round :| Path(e, round) && round[0] == t && round[|round| - 1] == t;
      forall n: nat ensures LongChain(types, boxed, n) {
        var chain := Laps(types, boxed, round, n);
        assert InlineChain(types, boxed, chain) && |chain| >= n;
      }
    } else if Endless(types, boxed) {
      assert LongChain(types, boxed, |e| + 1);
      var chain :| InlineChain(types, boxed, chain) && |chain| >= |e| + 1;
      forall i | 0 <= i < |chain| - 1
        ensures chain[i] in e && chain[i + 1] in e[chain[i]] && !OnCycle(e, chain[i], chain[i + 1])
      {
        assert Inline(types, boxed, chain[i], chain[i + 1]);
        NoCycle(e, chain[i], chain[i + 1]);
      }
      ChainBound(e, chain);
    }
  }

  lemma NoCycle(e: Graph, t: string, u: string)
    requires t in e && u in e[t] && !Reaches(e, t, t)
    ensures !OnCycle(e, t, u)
  {
    EdgeReaches(e, t, u);
    if Reaches(e, u, t) {
      ReachesTransitive(e, t, u, t);
    }
  }

  /** For any choice of boxes, the edge from `t` to `u` is gone along without end exactly when
      it is not boxed, belongs to a field that is no vector, and closes a cycle of such
      edges. */
  lemma BoxNeeded(types: map<string, seq<Ctor>>, boxed: set<(string, string)>, t: string, u: string)
    ensures EndlessAlong(types, boxed, t, u) <==> OnCycle(InlineGraph(types, boxed), t, u)
  {
    var e := InlineGraph(types, boxed);
    if OnCycle(e, t, u) {
      var round := RoundTripOf(e, t, u);
      forall n: nat ensures UsedOften(types, boxed, t, u, n) {
        var chain := Laps(types, boxed, round, n);
        assert InlineChain(types, boxed, chain) && Uses(chain, t, u) >= n;
      }
    }
    if EndlessAlong(types, boxed, t, u) {
      assert UsedOften(types, boxed, t, u, 2);
      var chain :| InlineChain(types, boxed, chain) && Uses(chain, t, u) >= 2;
      TwoUses(chain, t, u);
      var i: nat, j: nat :| UsedAt(chain, t, u, i) && UsedAt(chain, t, u, j) && i < j;
      BetweenUses(types, boxed, chain, t, u, i, j);
    }
  }

  lemma BetweenUses(types: map<string, seq<Ctor>>, boxed: set<(string, string)>, chain: seq<string>,
                    t: string, u: string, i: nat, j: nat)
    requires InlineChain(types, boxed, chain) && UsedAt(chain, t, u, i) && UsedAt(chain, t, u, j) && i < j
    ensures OnCycle(InlineGraph(types, boxed), t, u)
  {
    var e := InlineGraph(types, boxed);
    assert Inline(types, boxed, chain[i], chain[i + 1]);
    if u != t {
      var back := chain[i + 1..j + 1];
      forall k | 0 <= k < |back| - 1 ensures back[k] in e && back[k + 1] in e[back[k]] {
        assert Inline(types, boxed, chain[i + 1 + k], chain[i + 1 + k + 1]);
      }
      assert Path(e, back) && back[0] == u && back[|back| - 1] == t;
    }
  }

  lemma RoundTripOf(e: Graph, t: string, u: string) returns (round: seq<string>)
    requires OnCycle(e, t, u)
    ensures Path(e, round) && round[0] == t && round[1] == u && round[|round| - 1] == t
  {
    if u == t {
      round := [t, t];
    } else {
      var back :| Path(e, back) && back[0] == u && back[|back| - 1] == t;
      round := [t] + back;
    }
  }

  /** A cycle gone around `n` times. */
  lemma {:induction false} Laps(types: map<string, seq<Ctor>>, boxed: set<(string, string)>, round: seq<string>, n: nat)
      returns (chain: seq<string>)
    requires Path(InlineGraph(types, boxed), round) && round[|round| - 1] == round[0]
    ensures InlineChain(types, boxed, chain) && chain[0] == round[0] && |chain| >= n
    ensures Uses(chain, round[0], round[1]) >= n
  {
    if n == 0 {
      assert round[0] in InlineGraph(types, boxed);
      chain := [round[0]];
    } else {
      var rest := Laps(types, boxed, round, n - 1);
      var lap := round[..|round| - 1];
      chain := lap + rest;
      forall i | 0 <= i < |chain| - 1 ensures Inline(types, boxed, chain[i], chain[i + 1]) {
        if i < |lap| {
          assert chain[i] == round[i] && chain[i + 1] == round[i + 1];
        } else {
          assert chain[i] == rest[i - |lap|] && chain[i + 1] == rest[i + 1 - |lap|];
        }
      }
      assert chain[1] == round[1];
      assert chain[1..] == lap[1..] + rest;
      UsesLater(lap[1..], rest, round[0], round[1]);
    }
  }

  lemma {:induction false} UsesLater(a: seq<string>, b: seq<string>, t: string, u: string)
    ensures Uses(a + b, t, u) >= Uses(b, t, u)
  {
    if a == [] {
      assert a + b == b;
    } else {
      assert (a + b)[1..] == a[1..] + b;
      UsesLater(a[1..], b, t, u);
    }
  }

  ghost predicate UsedAt(chain: seq<string>, t: string, u: string, i: nat) {
    i + 1 < |chain| && chain[i] == t && chain[i + 1] == u
  }

  lemma {:induction false} OneUse(chain: seq<string>, t: string, u: string)
    requires Uses(chain, t, u) >= 1
    ensures exists i :: UsedAt(chain, t, u, i)
  {
    if UsedAt(chain, t, u, 0) {
    } else {
      OneUse(chain[1..], t, u);
      var i: nat :| UsedAt(chain[1..], t, u, i);
      assert UsedAt(chain, t, u, i + 1);
    }
  }

  lemma {:induction false} TwoUses(chain: seq<string>, t: string, u: string)
    requires Uses(chain, t, u) >= 2
    ensures exists i, j :: UsedAt(chain, t, u, i) && UsedAt(chain, t, u, j) && i < j
  {
    if UsedAt(chain, t, u, 0) {
      OneUse(chain[1..], t, u);
      var j: nat :| UsedAt(chain[1..], t, u, j);
      assert UsedAt(chain, t, u, j + 1);
    } else {
      TwoUses(chain[1..], t, u);
      var i: nat, j: nat :| UsedAt(chain[1..], t, u, i) && UsedAt(chain[1..], t, u, j) && i < j;
      assert UsedAt(chain, t, u, i + 1) && UsedAt(chain, t, u, j + 1);
    }
  }

  /** Of the boxes that are emitted, a single one can be left out exactly when it is not that
      of a type that contains itself in place: the others break every longer cycle. */
  lemma OneBoxLess(types: map<string, seq<Ctor>>, boxed: set<(string, string)>, t: string, u: string)
    requires forall x, y :: (x, y) in boxed <==> OnCycle(Edges(types), x, y)
    requires (t, u) in boxed
    ensures Endless(types, boxed - {(t, u)}) <==> t == u && Inline(types, {}, t, t)
  {
    var fewer := boxed - {(t, u)};
    var e := InlineGraph(types, fewer);
    EndlessExactly(types, fewer);
    if t == u && Inline(types, {}, t, t) {
      InlineAgain(types, {}, fewer, t, t);
      EdgeReaches(e, t, t);
    }
    if v :| Reaches(e, v, v) {
      var round :| Path(e, round) && round[0] == v && round[|round| - 1] == v;
      StepOnCycle(types, fewer, round, 0);
      StepOnCycle(types, fewer, round, |round| - 2);
      assert Inline(types, fewer, round[0], round[1]);
      InlineAgain(types, fewer, {}, t, t);
    }
  }

  /** Every step of a closed path lies on a cycle of the schema graph. */
  lemma StepOnCycle(types: map<string, seq<Ctor>>, boxed: set<(string, string)>, round: seq<string>, i: nat)
    requires Path(InlineGraph(types, boxed), round) && round[|round| - 1] == round[0] && i + 1 < |round|
    ensures OnCycle(Edges(types), round[i], round[i + 1]) && (round[i], round[i + 1]) !in boxed
  {
    var e := Edges(types);
    forall k | 0 <= k < |round| - 1 ensures round[k] in e && round[k + 1] in e[round[k]] {
      assert Inline(types, boxed, round[k], round[k + 1]);
      InlineIsEdge(types, boxed, round[k], round[k + 1]);
    }
    assert Inline(types, boxed, round[i], round[i + 1]);
    var t, u := round[i], round[i + 1];
    if u != t {
      var back, ahead := round[i + 1..], round[..i + 1];
      if |back| >= 2 {
        assert Path(e, back) && back[0] == u && back[|back| - 1] == round[0];
      }
      if |ahead| >= 2 {
        assert Path(e, ahead) && ahead[0] == round[0] && ahead[|ahead| - 1] == t;
      }
      if |back| >= 2 && |ahead| >= 2 {
        ReachesTransitive(e, u, round[0], t);
      }
    }
  }

  lemma InlineAgain(types: map<string, seq<Ctor>>, a: set<(string, string)>, b: set<(string, string)>, t: string,
                    u: string)
    requires Inline(types, a, t, u) && (t, u) !in b
    ensures Inline(types, b, t, u)
  {
  }

  const HOLDER := Ctor("ov", 1, "OV", [Field("value", Named("V"), None, false)])
  const LISTER := Ctor("v", 2, "V", [Field("value", Named("OV"), None, true)])

  /** `ov value:V = OV; v value:Vector<OV> = V`: the box in `OV` is emitted though no type
      would be endless without any box. */
  lemma OverBoxed(types: map<string, seq<Ctor>>)
    requires types == map["OV" := [HOLDER], "V" := [LISTER]]
    ensures OnCycle(Edges(types), "OV", "V") && !Endless(types, {})
  {
    var e := Edges(types);
    assert HOLDER.fields[0] in HOLDER.fields && LISTER.fields[0] in LISTER.fields;
    assert "V" in Mentioned(types, HOLDER.fields) && "OV" in Mentioned(types, LISTER.fields);
    assert HOLDER in types["OV"] && LISTER in types["V"];
    EdgeReaches(e, "V", "OV");
    EndlessExactly(types, {});
    var g := InlineGraph(types, {});
    assert forall t, u :: Inline(types, {}, t, u) ==> t == "OV" && u == "V";
    OneStep(g);
  }

  /** A graph with a single edge has no closed path. */
  lemma OneStep(g: Graph)
    requires forall t, u :: t in g && u in g[t] ==> t == "OV" && u == "V"
    ensures forall t :: !Reaches(g, t, t)
  {
    forall p | Path(g, p) ensures p[0] == "OV" && p[|p| - 1] == "V" {
      assert p[1] in g[p[0]] && p[|p| - 1] in g[p[|p| - 2]] by {
        assert p[|p| - 2 + 1] in g[p[|p| - 2]];
      }
    }
  }

  lemma {:induction false} SubsetSize(a: set<string>, b: set<string>)
    requires a <= b
    ensures |a| <= |b|
  {
    if a != {} {
      var x :| x in a;
      SubsetSize(a - {x}, b - {x});
    }
  }

  lemma SmallerSet(a: set<string>, b: set<string>)
    requires a < b
    ensures |a| < |b|
  {
    var x :| x in b && x !in a;
    SubsetSize(a, b - {x});
  }
}
