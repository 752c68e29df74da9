/** `tools/update_schema.py`: layer diffs applied to two arrays of declarations through a
    position index. */
module SchemaDiffs {
  import opened Wrappers

  /** A `.tl` declaration: its name and its whole line. */
  datatype Line = Line(name: string, text: string)

  datatype Item = Separator | Malformed | Decl(line: Line)

  datatype Diff = Diff(items: seq<Item>, inFunctions: bool, traverse: set<string>)

  /** The text of the last declaration of a name. */
  function Last(declared: seq<Line>, name: string): Option<string> {
    if declared == [] then None
    else if declared[|declared| - 1].name == name then Some(declared[|declared| - 1].text)
    else Last(declared[..|declared| - 1], name)
  }

  function DeclsOf(items: seq<Item>): seq<Line> {
    if items == [] then []
    else DeclsOf(items[..|items| - 1]) + if items[|items| - 1].Decl? then [items[|items| - 1].line] else []
  }

  function AllDecls(diffs: seq<Diff>): seq<Line> {
    if diffs == [] then [] else AllDecls(diffs[..|diffs| - 1]) + DeclsOf(diffs[|diffs| - 1].items)
  }

  /** The index of an array: every name once, at its position. */
  predicate Indexed(lines: seq<Line>, pos: map<string, nat>) {
    && (forall i :: 0 <= i < |lines| ==> lines[i].name in pos && pos[lines[i].name] == i)
    && (forall n :: n in pos ==> pos[n] < |lines| && lines[pos[n]].name == n)
  }

  /** Line `i` of a section: at its old place under its old name, and with the text declared
      last, or its old text when it was not declared again. */
  predicate UpToDate(base: seq<Line>, declared: seq<Line>, i: nat, line: Line) {
    && (i < |base| ==> line.name == base[i].name)
    && match Last(declared, line.name)
       case Some(text) => line.text == text
       case None => i < |base| && line == base[i]
  }

  predicate Current(base: seq<Line>, declared: seq<Line>, lines: seq<Line>) {
    |base| <= |lines| && forall i :: 0 <= i < |lines| ==> UpToDate(base, declared, i, lines[i])
  }

  lemma LastOf(declared: seq<Line>, ln: Line, name: string)
    ensures Last(declared + [ln], name) == if ln.name == name then Some(ln.text) else Last(declared, name)
  {
    assert (declared + [ln])[..|declared|] == declared;
  }

  lemma CurrentElsewhere(base: seq<Line>, declared: seq<Line>, lines: seq<Line>, pos: map<string, nat>, ln: Line)
    requires Current(base, declared, lines) && Indexed(lines, pos) && ln.name !in pos
    ensures Current(base, declared + [ln], lines)
  {
    forall i | 0 <= i < |lines| ensures UpToDate(base, declared + [ln], i, lines[i]) {
      LastOf(declared, ln, lines[i].name);
      assert UpToDate(base, declared, i, lines[i]);
    }
  }

  lemma CurrentReplaced(base: seq<Line>, declared: seq<Line>, lines: seq<Line>, pos: map<string, nat>, ln: Line)
    requires Current(base, declared, lines) && Indexed(lines, pos) && ln.name in pos
    ensures pos[ln.name] < |lines|
    ensures Current(base, declared + [ln], lines[pos[ln.name] := ln]) && Indexed(lines[pos[ln.name] := ln], pos)
  {
    var after := lines[pos[ln.name] := ln];
    forall i | 0 <= i < |lines| ensures UpToDate(base, declared + [ln], i, after[i]) {
      LastOf(declared, ln, after[i].name);
      assert UpToDate(base, declared, i, lines[i]);
    }
  }

  lemma CurrentAppended(base: seq<Line>, declared: seq<Line>, lines: seq<Line>, pos: map<string, nat>, ln: Line)
    requires Current(base, declared, lines) && Indexed(lines, pos) && ln.name !in pos
    ensures Current(base, declared + [ln], lines + [ln]) && Indexed(lines + [ln], pos[ln.name := |lines|])
  {
    var after := lines + [ln];
    forall i | 0 <= i < |after| ensures UpToDate(base, declared + [ln], i, after[i]) {
      LastOf(declared, ln, after[i].name);
      assert i < |lines| ==> UpToDate(base, declared, i, lines[i]);
    }
  }

  predicate DistinctNames(lines: seq<Line>) {
    forall i, j :: 0 <= i < j < |lines| ==> lines[i].name != lines[j].name
  }

  lemma DistinctParts(a: seq<Line>, b: seq<Line>)
    requires DistinctNames(a + b)
    ensures DistinctNames(a) && DistinctNames(b)
    ensures forall i, j :: 0 <= i < |a| && 0 <= j < |b| ==> a[i].name != b[j].name
  {
    forall i, j | 0 <= i < |a| && 0 <= j < |b| ensures a[i].name != b[j].name {
      assert (a + b)[i] == a[i] && (a + b)[|a| + j] == b[j];
    }
    forall i, j | 0 <= i < j < |a| ensures a[i].name != a[j].name {
      assert (a + b)[i] == a[i] && (a + b)[j] == a[j];
    }
    forall i, j | 0 <= i < j < |b| ensures b[i].name != b[j].name {
      assert (a + b)[|a| + i] == b[i] && (a + b)[|a| + j] == b[j];
    }
  }

  lemma ApartPositions(a: seq<Line>, b: seq<Line>, p: map<string, nat>, q: map<string, nat>)
    requires Indexed(a, p) && Indexed(b, q)
    requires forall i, j :: 0 <= i < |a| && 0 <= j < |b| ==> a[i].name != b[j].name
    ensures p.Keys !! q.Keys
  {
  }

  lemma NothingDeclared(lines: seq<Line>)
    ensures Current(lines, [], lines)
  {
  }

  /** `{name: i for i, line in enumerate(lines)}`. */
  method Positions(lines: seq<Line>) returns (pos: map<string, nat>)
    requires DistinctNames(lines)
    ensures Indexed(lines, pos)
  {
    pos := map[];
    for i := 0 to |lines|
      invariant Indexed(lines[..i], pos)
    {
      pos := pos[lines[i].name := i];
    }
    assert lines[..|lines|] == lines;
  }

  // ---- where a new declaration goes ----

  function SeparatorsBefore(items: seq<Item>, k: nat): set<nat>
    requires k <= |items|
  {
    set i: nat | i < k && items[i] == Separator
  }

  /** Every separator before item `k` switches between types and functions. */
  predicate AmongFunctions(diff: Diff, k: nat)
    requires k <= |diff.items|
  {
    diff.inFunctions != (|SeparatorsBefore(diff.items, k)| % 2 == 1)
  }

  lemma SeparatorsStep(items: seq<Item>, k: nat)
    requires k < |items|
    ensures SeparatorsBefore(items, 0) == {}
    ensures |SeparatorsBefore(items, k + 1)| ==
            |SeparatorsBefore(items, k)| + if items[k] == Separator then 1 else 0
  {
    var before := SeparatorsBefore(items, k);
    assert SeparatorsBefore(items, k + 1) == if items[k] == Separator then before + {k} else before;
  }

  /** Item `i` declares a name that is not known and was not declared before it in its layer. */
  ghost predicate NewIn(known: set<string>, items: seq<Item>, i: nat) {
    && i < |items| && items[i].Decl? && items[i].line.name !in known
    && forall j :: 0 <= j < i && items[j].Decl? ==> items[j].line.name != items[i].line.name
  }

  /** The layer says so, by its separators or its traverse lines. */
  predicate SaidMethod(diff: Diff, i: nat)
    requires i < |diff.items| && diff.items[i].Decl?
  {
    AmongFunctions(diff, i) || diff.items[i].line.name in diff.traverse
  }

  /** A new item is a method when its layer or the draft schema says so, and it cannot be
      classified when its layer does not and the draft does not know it. */
  predicate IsMethod(diff: Diff, i: nat, draft: map<string, bool>)
    requires i < |diff.items| && diff.items[i].Decl?
  {
    SaidMethod(diff, i) || (diff.items[i].line.name in draft && draft[diff.items[i].line.name])
  }

  ghost predicate Classified(known: set<string>, diff: Diff, n: nat, draft: map<string, bool>)
    requires n <= |diff.items|
  {
    forall i :: 0 <= i < n && NewIn(known, diff.items, i) ==>
      SaidMethod(diff, i) || diff.items[i].line.name in draft
  }

  /** The new items among the first `n` stand in the section they were classified for. */
  ghost predicate Filed(known: set<string>, diff: Diff, n: nat, draft: map<string, bool>, ctors: set<string>,
                         methods: set<string>)
    requires n <= |diff.items|
  {
    forall i :: 0 <= i < n && NewIn(known, diff.items, i) ==>
      diff.items[i].line.name in if IsMethod(diff, i, draft) then methods else ctors
  }

  /** The names declared by the first `n` items. */
  function Names(items: seq<Item>, n: nat): set<string>
    requires n <= |items|
  {
    set i | 0 <= i < n && items[i].Decl? :: items[i].line.name
  }

  lemma NamesStep(items: seq<Item>, n: nat)
    requires n < |items|
    ensures Names(items, 0) == {}
    ensures Names(items, n + 1) == Names(items, n) + if items[n].Decl? then {items[n].line.name} else {}
  {
  }

  lemma NewExactly(known: set<string>, items: seq<Item>, i: nat)
    requires i < |items| && items[i].Decl?
    ensures NewIn(known, items, i) <==> items[i].line.name !in known + Names(items, i)
  {
    if items[i].line.name in Names(items, i) {
      var j :| 0 <= j < i && items[j].Decl? && items[j].line.name == items[i].line.name;
    }
  }

  /** A layer after its first `n` items. */
  ghost predicate Halfway(known: set<string>, diff: Diff, n: nat, draft: map<string, bool>, inFunctions: bool,
                          ctors: set<string>, methods: set<string>) {
    && n <= |diff.items| && inFunctions == AmongFunctions(diff, n)
    && ctors + methods == known + Names(diff.items, n)
    && Classified(known, diff, n, draft) && Filed(known, diff, n, draft, ctors, methods)
  }

  lemma LayerStarts(diff: Diff, draft: map<string, bool>, ctors: set<string>, methods: set<string>)
    ensures Halfway(ctors + methods, diff, 0, draft, diff.inFunctions, ctors, methods)
  {
    assert SeparatorsBefore(diff.items, 0) == {};
  }

  lemma PastSeparator(known: set<string>, diff: Diff, n: nat, draft: map<string, bool>, inFunctions: bool,
                      ctors: set<string>, methods: set<string>)
    requires Halfway(known, diff, n, draft, inFunctions, ctors, methods) && n < |diff.items|
    requires diff.items[n] == Separator
    ensures Halfway(known, diff, n + 1, draft, !inFunctions, ctors, methods)
  {
    SeparatorsStep(diff.items, n);
    NamesStep(diff.items, n);
  }

  lemma PastDeclaration(known: set<string>, diff: Diff, n: nat, draft: map<string, bool>, inFunctions: bool,
                        ctors: set<string>, methods: set<string>, moreCtors: set<string>, moreMethods: set<string>)
    requires Halfway(known, diff, n, draft, inFunctions, ctors, methods) && n < |diff.items| && diff.items[n].Decl?
    requires ctors <= moreCtors && methods <= moreMethods
    requires moreCtors + moreMethods == ctors + methods + {diff.items[n].line.name}
    requires diff.items[n].line.name !in ctors + methods ==>
               && (SaidMethod(diff, n) || diff.items[n].line.name in draft)
               && diff.items[n].line.name in if IsMethod(diff, n, draft) then moreMethods else moreCtors
    ensures Halfway(known, diff, n + 1, draft, inFunctions, moreCtors, moreMethods)
  {
    SeparatorsStep(diff.items, n);
    NamesStep(diff.items, n);
    NewExactly(known, diff.items, n);
    hide Names, AmongFunctions, IsMethod, SaidMethod, NewIn;
  }

  lemma Says(known: set<string>, diff: Diff, n: nat, draft: map<string, bool>, inFunctions: bool,
             ctors: set<string>, methods: set<string>)
    requires Halfway(known, diff, n, draft, inFunctions, ctors, methods) && n < |diff.items| && diff.items[n].Decl?
    ensures var name := diff.items[n].line.name;
            && SaidMethod(diff, n) == (inFunctions || name in diff.traverse)
            && IsMethod(diff, n, draft) == (inFunctions || name in diff.traverse || (name in draft && draft[name]))
  {
  }

  lemma LayerEnds(known: set<string>, diff: Diff, draft: map<string, bool>, inFunctions: bool, ctors: set<string>,
                  methods: set<string>)
    requires Halfway(known, diff, |diff.items|, draft, inFunctions, ctors, methods)
    ensures ctors + methods == known + Names(diff.items, |diff.items|)
    ensures Classified(known, diff, |diff.items|, draft)
    ensures Filed(known, diff, |diff.items|, draft, ctors, methods)
  {
  }

  lemma Unclassified(known: set<string>, diff: Diff, n: nat, draft: map<string, bool>, inFunctions: bool,
                     ctors: set<string>, methods: set<string>)
    requires Halfway(known, diff, n, draft, inFunctions, ctors, methods) && n < |diff.items| && diff.items[n].Decl?
    requires diff.items[n].line.name !in ctors + methods
    requires !SaidMethod(diff, n) && diff.items[n].line.name !in draft
    ensures !Classified(known, diff, |diff.items|, draft)
  {
    NewExactly(known, diff.items, n);
  }

  /** The names known when layer `d` starts. */
  function Known(base: set<string>, diffs: seq<Diff>, d: nat): set<string>
    requires d <= |diffs|
    decreases d
  {
    if d == 0 then base else Known(base, diffs, d - 1) + Names(diffs[d - 1].items, |diffs[d - 1].items|)
  }

  /** Layer `d` has no line that is not understood and no new item that cannot be classified. */
  ghost predicate Readable(base: set<string>, diffs: seq<Diff>, d: nat, draft: map<string, bool>)
    requires d < |diffs|
  {
    && WellFormed(diffs[d].items)
    && Classified(Known(base, diffs, d), diffs[d], |diffs[d].items|, draft)
  }

  lemma AllDeclsStep(diffs: seq<Diff>, d: nat)
    requires d < |diffs|
    ensures AllDecls(diffs[..d + 1]) == AllDecls(diffs[..d]) + DeclsOf(diffs[d].items)
  {
    assert diffs[..d + 1][..d] == diffs[..d];
  }

  /** The new items of layer `d` stand in their sections. */
  ghost predicate InPlace(base: set<string>, diffs: seq<Diff>, d: nat, draft: map<string, bool>, ctors: set<string>,
                          methods: set<string>)
    requires d < |diffs|
  {
    Filed(Known(base, diffs, d), diffs[d], |diffs[d].items|, draft, ctors, methods)
  }

  ghost predicate LayersDone(base: set<string>, diffs: seq<Diff>, n: nat, draft: map<string, bool>,
                             ctors: set<string>, methods: set<string>) {
    && n <= |diffs| && ctors + methods == Known(base, diffs, n)
    && forall d :: 0 <= d < n ==> Readable(base, diffs, d, draft) && InPlace(base, diffs, d, draft, ctors, methods)
  }

  lemma LayersStart(diffs: seq<Diff>, draft: map<string, bool>, ctors: set<string>, methods: set<string>)
    ensures LayersDone(ctors + methods, diffs, 0, draft, ctors, methods) && AllDecls(diffs[..0]) == []
  {
  }

  lemma OneLayer(base: set<string>, diffs: seq<Diff>, n: nat, draft: map<string, bool>, ctors: set<string>,
                 methods: set<string>, moreCtors: set<string>, moreMethods: set<string>)
    requires n < |diffs| && LayersDone(base, diffs, n, draft, ctors, methods)
    requires ctors <= moreCtors && methods <= moreMethods && WellFormed(diffs[n].items)
    requires var items, known := diffs[n].items, ctors + methods;
             && moreCtors + moreMethods == known + Names(items, |items|)
             && Classified(known, diffs[n], |items|, draft)
             && Filed(known, diffs[n], |items|, draft, moreCtors, moreMethods)
    ensures LayersDone(base, diffs, n + 1, draft, moreCtors, moreMethods)
  {
    hide Names, Classified, Filed;
    forall d | 0 <= d < n ensures InPlace(base, diffs, d, draft, moreCtors, moreMethods) {
      assert InPlace(base, diffs, d, draft, ctors, methods);
      StillFiled(Known(base, diffs, d), diffs[d], draft, ctors, methods, moreCtors, moreMethods);
    }
  }

  lemma NotReadable(base: set<string>, diffs: seq<Diff>, n: nat, draft: map<string, bool>, ctors: set<string>,
                    methods: set<string>)
    requires n < |diffs| && LayersDone(base, diffs, n, draft, ctors, methods)
    ensures Readable(base, diffs, n, draft) <==>
            WellFormed(diffs[n].items) && Classified(ctors + methods, diffs[n], |diffs[n].items|, draft)
  {
  }

  lemma AllLayers(base: set<string>, diffs: seq<Diff>, draft: map<string, bool>, ctors: set<string>,
                  methods: set<string>)
    requires LayersDone(base, diffs, |diffs|, draft, ctors, methods)
    ensures forall d :: 0 <= d < |diffs| ==> Readable(base, diffs, d, draft)
    ensures forall d :: 0 <= d < |diffs| ==> InPlace(base, diffs, d, draft, ctors, methods)
  {
  }

  lemma StillFiled(known: set<string>, diff: Diff, draft: map<string, bool>, ctors: set<string>,
                    methods: set<string>, moreCtors: set<string>, moreMethods: set<string>)
    requires Filed(known, diff, |diff.items|, draft, ctors, methods)
    requires ctors <= moreCtors && methods <= moreMethods
    ensures Filed(known, diff, |diff.items|, draft, moreCtors, moreMethods)
  {
  }

  class Schema {
    var ctors: seq<Line>
    var methods: seq<Line>
    var ctorPos: map<string, nat>
    var methodPos: map<string, nat>
    ghost var baseCtors: seq<Line>
    ghost var baseMethods: seq<Line>
    ghost var declared: seq<Line>

    ghost predicate Valid()
      reads this
    {
      && Indexed(ctors, ctorPos) && Indexed(methods, methodPos) && ctorPos.Keys !! methodPos.Keys
      && Current(baseCtors, declared, ctors) && Current(baseMethods, declared, methods)
      && (forall i :: 0 <= i < |declared| ==> declared[i].name in ctorPos || declared[i].name in methodPos)
    }

    /** The names of both sections. */
    ghost function AllNames(): set<string>
      reads this
    {
      ctorPos.Keys + methodPos.Keys
    }

    /** The two position dictionaries over sections without a repeated name. */
    constructor (ctors: seq<Line>, methods: seq<Line>)
      requires DistinctNames(ctors + methods)
      ensures Valid() && this.ctors == baseCtors == ctors && this.methods == baseMethods == methods && declared == []
    {
      DistinctParts(ctors, methods);
      var c := Positions(ctors);
      var m := Positions(methods);
      ApartPositions(ctors, methods, c, m);
      NothingDeclared(ctors);
      NothingDeclared(methods);
      this.ctors, this.methods, ctorPos, methodPos := ctors, methods, c, m;
      baseCtors, baseMethods, declared := ctors, methods, [];
    }

    /** One declaration: in place when the name is known, appended when it is new and can be
        classified. */
    method Declare(ln: Line, isFn: bool, draft: map<string, bool>) returns (ok: bool)
      requires Valid()
      modifies this`ctors, this`methods, this`ctorPos, this`methodPos, this`declared
      ensures Valid()
      ensures ok <==> ln.name in old(ctorPos) || ln.name in old(methodPos) || isFn || ln.name in draft
      ensures declared == old(declared) + (if ok then [ln] else [])
      ensures forall n :: n in old(ctorPos) ==> n in ctorPos && ctorPos[n] == old(ctorPos)[n]
      ensures forall n :: n in old(methodPos) ==> n in methodPos && methodPos[n] == old(methodPos)[n]
      ensures ok && ln.name !in old(ctorPos) && ln.name !in old(methodPos) ==>
                if isFn || draft[ln.name] then ln.name in methodPos else ln.name in ctorPos
      ensures ctorPos.Keys + methodPos.Keys
              == old(ctorPos.Keys + methodPos.Keys) + if ok then {ln.name} else {}
    {
      hide Current, Indexed;
      if ln.name in ctorPos {
        CurrentReplaced(baseCtors, declared, ctors, ctorPos, ln);
        CurrentElsewhere(baseMethods, declared, methods, methodPos, ln);
        ctors := ctors[ctorPos[ln.name] := ln];
      } else if ln.name in methodPos {
        CurrentReplaced(baseMethods, declared, methods, methodPos, ln);
        CurrentElsewhere(baseCtors, declared, ctors, ctorPos, ln);
        methods := methods[methodPos[ln.name] := ln];
      } else {
        if ln.name !in draft && !isFn { return false; }
        if isFn || draft[ln.name] {
          CurrentAppended(baseMethods, declared, methods, methodPos, ln);
          CurrentElsewhere(baseCtors, declared, ctors, ctorPos, ln);
          methodPos := methodPos[ln.name := |methods|];
          methods := methods + [ln];
        } else {
          CurrentAppended(baseCtors, declared, ctors, ctorPos, ln);
          CurrentElsewhere(baseMethods, declared, methods, methodPos, ln);
          ctorPos := ctorPos[ln.name := |ctors|];
          ctors := ctors + [ln];
        }
      }
      declared := declared + [ln];
      ok := true;
    }

    /** `apply_diffs`: the layers in order. On success each section keeps its old lines in
        place, every line carries the text declared last for its name, every declared name
        stands in exactly one section, and the count is that of the declarations. */
    method ApplyDiffs(diffs: seq<Diff>, draft: map<string, bool>) returns (r: Result<nat>)
      requires Valid() && declared == []
      modifies this`ctors, this`methods, this`ctorPos, this`methodPos, this`declared
      ensures Valid()
      ensures r.Ok? ==> declared == AllDecls(diffs) && r.value == |AllDecls(diffs)|
      ensures r.Ok? ==> forall d :: 0 <= d < |diffs| ==>
                          InPlace(old(AllNames()), diffs, d, draft, ctorPos.Keys, methodPos.Keys)
      ensures r.Ok? <==> forall d :: 0 <= d < |diffs| ==> Readable(old(AllNames()), diffs, d, draft)
      ensures r.Err? ==> r.error == Other
    {
      hide Current, Indexed, LayersDone, InPlace, Readable, Classified, Filed, Names, AllDecls, DeclsOf, WellFormed;
      var replaced := 0;
      ghost var base := AllNames();
      LayersStart(diffs, draft, ctorPos.Keys, methodPos.Keys);
      for d := 0 to |diffs|
        invariant Valid() && declared == AllDecls(diffs[..d]) && replaced == |declared|
        invariant LayersDone(base, diffs, d, draft, ctorPos.Keys, methodPos.Keys)
      {
        AllDeclsStep(diffs, d);
        ghost var ctorNames, methodNames := ctorPos.Keys, methodPos.Keys;
        NotReadable(base, diffs, d, draft, ctorNames, methodNames);
        var n :- ApplyLayer(diffs[d], draft);
        OneLayer(base, diffs, d, draft, ctorNames, methodNames, ctorPos.Keys, methodPos.Keys);
        replaced := replaced + n;
      }
      assert diffs[..|diffs|] == diffs;
      AllLayers(base, diffs, draft, ctorPos.Keys, methodPos.Keys);
      r := Ok(replaced);
    }

    /** One layer; the separator switches between types and functions. */
    method ApplyLayer(diff: Diff, draft: map<string, bool>) returns (r: Result<nat>)
      requires Valid()
      modifies this`ctors, this`methods, this`ctorPos, this`methodPos, this`declared
      ensures Valid()
      ensures r.Ok? ==>
                && declared == old(declared) + DeclsOf(diff.items) && r.value == |DeclsOf(diff.items)|
                && ctorPos.Keys + methodPos.Keys == old(AllNames()) + Names(diff.items, |diff.items|)
                && Filed(old(AllNames()), diff, |diff.items|, draft, ctorPos.Keys, methodPos.Keys)
      ensures r.Ok? <==> WellFormed(diff.items) && Classified(old(AllNames()), diff, |diff.items|, draft)
      ensures r.Err? ==> r.error == Other
      ensures old(ctorPos.Keys) <= ctorPos.Keys && old(methodPos.Keys) <= methodPos.Keys
    {
      hide Current, Indexed, Halfway, Classified, Filed, IsMethod, SaidMethod, DeclsOf, WellFormed, Names;
      var items, inFunctions, n := diff.items, diff.inFunctions, 0;
      ghost var known := AllNames();
      LayerStarts(diff, draft, ctorPos.Keys, methodPos.Keys);
      NoItems(items);
      for i := 0 to |items|
        invariant Valid() && declared == old(declared) + DeclsOf(items[..i]) && n == |DeclsOf(items[..i])|
        invariant WellFormed(items[..i])
        invariant old(ctorPos.Keys) <= ctorPos.Keys && old(methodPos.Keys) <= methodPos.Keys
        invariant Halfway(known, diff, i, draft, inFunctions, ctorPos.Keys, methodPos.Keys)
      {
        DeclsStep(items, i);
        match items[i]
        case Separator =>
          PastSeparator(known, diff, i, draft, inFunctions, ctorPos.Keys, methodPos.Keys);
          inFunctions := !inFunctions;
        case Malformed => return Err(Other);
        case Decl(ln) =>
          ghost var ctorNames, methodNames := ctorPos.Keys, methodPos.Keys;
          Says(known, diff, i, draft, inFunctions, ctorNames, methodNames);
          var ok := Declare(ln, inFunctions || ln.name in diff.traverse, draft);
          if !ok {
            Unclassified(known, diff, i, draft, inFunctions, ctorNames, methodNames);
            return Err(Other);
          }
          PastDeclaration(known, diff, i, draft, inFunctions, ctorNames, methodNames, ctorPos.Keys, methodPos.Keys);
          n := n + 1;
      }
      assert items[..|items|] == items;
      LayerEnds(known, diff, draft, inFunctions, ctorPos.Keys, methodPos.Keys);
      r := Ok(n);
    }
  }

  predicate WellFormed(items: seq<Item>) {
    forall i :: 0 <= i < |items| ==> items[i] != Malformed
  }

  lemma NoItems(items: seq<Item>)
    ensures DeclsOf(items[..0]) == [] && WellFormed(items[..0])
    ensures forall i :: 0 <= i < |items| && items[i] == Malformed ==> !WellFormed(items)
  {
  }

  lemma DeclsStep(items: seq<Item>, i: nat)
    requires i < |items|
    ensures DeclsOf(items[..i + 1]) == DeclsOf(items[..i]) + if items[i].Decl? then [items[i].line] else []
    ensures WellFormed(items[..i + 1]) <==> WellFormed(items[..i]) && items[i] != Malformed
  {
    assert items[..i + 1][..i] == items[..i];
    assert items[..i + 1] == items[..i] + [items[i]];
  }

  /** What the result means for one name: its line, wherever it stands, is its last
      declaration; an undeclared line is untouched and where it was. */
  lemma LastDeclarationWins(base: seq<Line>, declared: seq<Line>, lines: seq<Line>, pos: map<string, nat>, name: string)
    requires Current(base, declared, lines) && Indexed(lines, pos) && name in pos
    ensures Last(declared, name).Some? ==> lines[pos[name]] == Line(name, Last(declared, name).value)
    ensures Last(declared, name).None? ==> pos[name] < |base| && lines[pos[name]] == base[pos[name]]
    ensures forall i :: 0 <= i < |lines| && lines[i].name == name ==> i == pos[name]
  {
    assert UpToDate(base, declared, pos[name], lines[pos[name]]);
  }

  /** `Last` is the declaration after which the name does not occur again. */
  lemma {:induction false} LastMeans(declared: seq<Line>, name: string)
    ensures Last(declared, name).None? <==> forall i :: 0 <= i < |declared| ==> declared[i].name != name
    ensures Last(declared, name).Some? ==>
              exists i :: 0 <= i < |declared| && declared[i] == Line(name, Last(declared, name).value)
                          && forall j :: i < j < |declared| ==> declared[j].name != name
  {
    if declared != [] {
      var k := |declared| - 1;
      LastMeans(declared[..k], name);
      if declared[k].name == name {
        assert declared[k] == Line(name, Last(declared, name).value);
      } else if Last(declared, name).Some? {
        var i :| 0 <= i < k && declared[..k][i] == Line(name, Last(declared[..k], name).value)
                 && forall j :: i < j < k ==> declared[..k][j].name != name;
        assert forall j :: i < j < |declared| ==> declared[j].name != name by {
          forall j | i < j < |declared| ensures declared[j].name != name {
            assert j < k ==> declared[..k][j] == declared[j];
          }
        }
        assert declared[i] == declared[..k][i];
      } else {
        assert forall i :: 0 <= i < k ==> declared[..k][i] == declared[i];
      }
    }
  }
}
