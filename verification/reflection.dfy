/**
 The per-type loop of `ReflectAssembly`. Each type the newer assembly exports
 is either analysed (its name is a key of the analysis table), totally new
 (its name is registered in the totally-new table), unchanged (an older type
 has the same name) or unexplained. Only analysed types print lines, and only
 when the missing section of their entry flags at least one member.
 */
module Reflection {
  import opened Signatures
  import opened Hierarchy
  import opened XmlDiffParser
  import opened Comparer

  // ----- counting the flagged members -----

  /** Total number of names listed under the kinds of `keys`. */
  ghost function SumOver(kinds: KindTable, keys: set<string>): nat
    requires keys <= kinds.Keys
    decreases keys
  {
    if keys == {} then 0
    else
      var k :| k in keys;
      |kinds[k]| + SumOver(kinds, keys - {k})
  }

  /** Total number of names listed in a section, whatever the enumeration order. */
  ghost function SumLengths(kinds: KindTable): nat {
    SumOver(kinds, kinds.Keys)
  }

  /** The sum does not depend on which kind is taken out first. */
  lemma {:induction false} SumOverRemove(kinds: KindTable, keys: set<string>, k: string)
    requires keys <= kinds.Keys && k in keys
    ensures SumOver(kinds, keys) == |kinds[k]| + SumOver(kinds, keys - {k})
    decreases keys
  {
    var j :| j in keys && SumOver(kinds, keys) == |kinds[j]| + SumOver(kinds, keys - {j});
    if j != k {
      SumOverRemove(kinds, keys - {j}, k);
      SumOverRemove(kinds, keys - {k}, j);
      assert keys - {j} - {k} == keys - {k} - {j};
    }
  }

  /** The sum is positive exactly when some kind of `keys` lists a name. */
  lemma {:induction false} SumPositive(kinds: KindTable, keys: set<string>)
    requires keys <= kinds.Keys
    ensures SumOver(kinds, keys) > 0 <==> exists k :: k in keys && |kinds[k]| > 0
    decreases keys
  {
    if keys != {} {
      var k :| k in keys && SumOver(kinds, keys) == |kinds[k]| + SumOver(kinds, keys - {k});
      SumPositive(kinds, keys - {k});
      if exists j :: j in keys && |kinds[j]| > 0 {
        var j :| j in keys && |kinds[j]| > 0;
        if j != k {
          assert j in keys - {k};
        }
      }
    }
  }

  /** One `foreach` over a section, adding up the lengths of its lists. */
  method SumSection(kinds: KindTable) returns (n: nat)
    ensures n == SumLengths(kinds)
  {
    n := 0;
    var rest := kinds.Keys;
    while rest != {}
      invariant rest <= kinds.Keys
      invariant n + SumOver(kinds, rest) == SumLengths(kinds)
      decreases rest
    {
      var k :| k in rest;
      SumOverRemove(kinds, rest, k);
      n := n + |kinds[k]|;
      rest := rest - {k};
    }
  }

  /** The missing section of an entry flags at least one member. */
  predicate HasMissingWork(entry: map<Category, KindTable>) {
    Missing in entry && exists k :: k in entry[Missing] && |entry[Missing][k]| > 0
  }

  /**
   The `try` block that computes `mcount` and `ecount`. Without a missing
   section the first `foreach` fails on a null table and both counts stay 0;
   without an extra section only `ecount` stays 0.
   */
  method Counts(entry: map<Category, KindTable>) returns (mcount: nat, ecount: nat)
    ensures mcount == (if Missing in entry then SumLengths(entry[Missing]) else 0)
    ensures ecount == (if Missing in entry && Extra in entry then SumLengths(entry[Extra]) else 0)
    ensures mcount > 0 <==> HasMissingWork(entry)
  {
    mcount, ecount := 0, 0;
    if Missing in entry {
      mcount := SumSection(entry[Missing]);
      SumPositive(entry[Missing], entry[Missing].Keys);
      if Extra in entry {
        ecount := SumSection(entry[Extra]);
      }
    }
  }

  // ----- classifying one type -----

  /** What the loop does with one exported type of the newer assembly. */
  datatype TypeOutcome =
    | Analysed(typeName: string, reports: map<string, seq<Report>>)
    | TotallyNew(typeName: string)
    | Unchanged(typeName: string)
    | Unexplained(typeName: string)

  /** The constructor and method lists of a section can be split at their `(`. */
  predicate SectionSplittable(kinds: KindTable) {
    forall k :: k in kinds && SplitsSignatures(k) ==> Splittable(kinds[k])
  }

  /** The entry of `name`, when there is one, has splittable missing lists. */
  predicate FlaggedSplittable(analysis: AnalysisTable, name: string) {
    name in analysis && Missing in analysis[name] ==> SectionSplittable(analysis[name][Missing])
  }

  /** The lines printed for each kind of a missing section. */
  function SectionReports(t: TypeNode, kinds: KindTable, resolves: Resolver, assembly: string): (m: map<string, seq<Report>>)
    requires SectionSplittable(kinds)
    ensures m.Keys == kinds.Keys
  {
    map k | k in kinds :: KindReports(t, k, kinds[k], resolves, assembly)
  }

  /**
   One iteration of the loop of `ReflectAssembly` for the exported type `t`;
   `oldNames` are the names of the older assembly's exported types.
   */
  function ReflectType(t: TypeNode, oldNames: seq<string>, analysis: AnalysisTable, newAnalysis: NewTable,
                       resolves: Resolver, assembly: string): (o: TypeOutcome)
    requires FlaggedSplittable(analysis, t.name)
    ensures o.typeName == t.name
    ensures o.Analysed? <==> t.name in analysis
    ensures o.TotallyNew? <==> t.name !in analysis && Registered(newAnalysis, t.name)
    ensures o.Unchanged? <==> t.name !in analysis && !Registered(newAnalysis, t.name) && t.name in oldNames
    ensures o.Analysed? && !HasMissingWork(analysis[t.name]) ==> o.reports == map[]
    ensures o.Analysed? && HasMissingWork(analysis[t.name]) ==> o.reports.Keys == analysis[t.name][Missing].Keys
  {
    if t.name in analysis then
      var entry := analysis[t.name];
      if HasMissingWork(entry) then Analysed(t.name, SectionReports(t, entry[Missing], resolves, assembly))
      else Analysed(t.name, map[])
    else if Registered(newAnalysis, t.name) then TotallyNew(t.name)
    else if t.name in oldNames then Unchanged(t.name)
    else Unexplained(t.name)
  }

  /**
   The same iteration written as the source runs it: the counts are computed
   first and the member checks run only when `mcount` is positive.
   */
  method AnalyseType(t: TypeNode, oldNames: seq<string>, analysis: AnalysisTable, newAnalysis: NewTable,
                     resolves: Resolver, assembly: string) returns (o: TypeOutcome)
    requires FlaggedSplittable(analysis, t.name)
    ensures o == ReflectType(t, oldNames, analysis, newAnalysis, resolves, assembly)
  {
    if t.name in analysis {
      var entry := analysis[t.name];
      var mcount, ecount := Counts(entry);
      var reports := map[];
      if mcount > 0 {
        reports := SectionReports(t, entry[Missing], resolves, assembly);
      }
      o := Analysed(t.name, reports);
    } else {
      var found := false;
      var keys := newAnalysis.Keys;
      while keys != {}
        invariant keys <= newAnalysis.Keys
        invariant found <==> exists k :: k in newAnalysis && k !in keys && t.name in newAnalysis[k]
        decreases keys
      {
        var k :| k in keys;
        if t.name in newAnalysis[k] {
          found := true;
        }
        keys := keys - {k};
      }
      if found {
        o := TotallyNew(t.name);
      } else {
        var oldFound := false;
        var i := 0;
        while i < |oldNames|
          invariant i <= |oldNames|
          invariant oldFound <==> t.name in oldNames[..i]
        {
          if t.name == oldNames[i] {
            oldFound := true;
          }
          i := i + 1;
        }
        assert oldNames[..i] == oldNames;
        o := if oldFound then Unchanged(t.name) else Unexplained(t.name);
      }
    }
  }

  /** The lines an outcome prints, in no particular order (the tables are hash tables). */
  function Printed(o: TypeOutcome): set<Report> {
    if o.Analysed? then set k, x | k in o.reports && x in o.reports[k] :: x else {}
  }

  /** `ReflectAssembly`: every exported type of the newer assembly, in order. */
  function ReflectAssembly(ntypes: seq<TypeNode>, oldNames: seq<string>, analysis: AnalysisTable, newAnalysis: NewTable,
                           resolves: Resolver, assembly: string): (r: seq<TypeOutcome>)
    requires forall i :: 0 <= i < |ntypes| ==> FlaggedSplittable(analysis, ntypes[i].name)
    ensures |r| == |ntypes|
    ensures forall i :: 0 <= i < |ntypes| ==> r[i] == ReflectType(ntypes[i], oldNames, analysis, newAnalysis, resolves, assembly)
  {
    if ntypes == [] then []
    else
      [ReflectType(ntypes[0], oldNames, analysis, newAnalysis, resolves, assembly)]
      + ReflectAssembly(ntypes[1..], oldNames, analysis, newAnalysis, resolves, assembly)
  }

  // ----- properties of the loop -----

  /**
   Every printed line names the analysed type and the newer assembly, and
   comes from a member flagged under its kind in the missing section.
   */
  lemma PrintedLinesAreFlagged(t: TypeNode, oldNames: seq<string>, analysis: AnalysisTable, newAnalysis: NewTable,
                               resolves: Resolver, assembly: string, x: Report)
    requires FlaggedSplittable(analysis, t.name)
    requires x in Printed(ReflectType(t, oldNames, analysis, newAnalysis, resolves, assembly))
    ensures t.name in analysis && Missing in analysis[t.name]
    ensures var kinds := analysis[t.name][Missing];
      match x
      case ConstructorNotFound(name, sign, a, tn) =>
        a == assembly && tn == t.name && "constructor" in kinds && name + sign in kinds["constructor"]
      case PropertyNotFound(name, a, tn) =>
        a == assembly && tn == t.name && "property" in kinds && name in kinds["property"]
      case MethodNotFound(name, sign, a, tn) =>
        a == assembly && tn == t.name && "method" in kinds && name + sign in kinds["method"]
      case NotImplemented(kind, member) =>
        kind != "constructor" && kind != "property" && kind != "method" && kind in kinds && member in kinds[kind]
  {
    var o := ReflectType(t, oldNames, analysis, newAnalysis, resolves, assembly);
    var kinds := analysis[t.name][Missing];
    var k :| k in o.reports && x in o.reports[k];
    KindReportsFlagged(t, k, kinds[k], resolves, assembly, x);
  }

  /**
   A line is printed for `t` exactly when `t` is analysed, its missing
   section flags at least one member, and the switch prints the line for
   one of the section's kinds.
   */
  lemma PrintedIff(t: TypeNode, oldNames: seq<string>, analysis: AnalysisTable, newAnalysis: NewTable,
                   resolves: Resolver, assembly: string, x: Report)
    requires FlaggedSplittable(analysis, t.name)
    ensures x in Printed(ReflectType(t, oldNames, analysis, newAnalysis, resolves, assembly)) <==>
      && t.name in analysis && HasMissingWork(analysis[t.name])
      && exists k :: k in analysis[t.name][Missing] && x in KindReports(t, k, analysis[t.name][Missing][k], resolves, assembly)
  {
    var o := ReflectType(t, oldNames, analysis, newAnalysis, resolves, assembly);
    if t.name in analysis && HasMissingWork(analysis[t.name]) {
      var kinds := analysis[t.name][Missing];
      assert o.reports == SectionReports(t, kinds, resolves, assembly);
      assert forall k :: k in kinds ==> o.reports[k] == KindReports(t, k, kinds[k], resolves, assembly);
    }
  }

  /**
   A flagged property of an analysed type is printed exactly when no type of
   its ancestor chain has a property of that name; nothing else prints a
   property line for it.
   */
  lemma PrintedPropertyIff(t: TypeNode, oldNames: seq<string>, analysis: AnalysisTable, newAnalysis: NewTable,
                           resolves: Resolver, assembly: string, p: string)
    requires FlaggedSplittable(analysis, t.name)
    ensures var chain := ParentTypes(t);
      PropertyNotFound(p, assembly, t.name) in Printed(ReflectType(t, oldNames, analysis, newAnalysis, resolves, assembly)) <==>
      && t.name in analysis && Missing in analysis[t.name] && "property" in analysis[t.name][Missing]
      && p in analysis[t.name][Missing]["property"]
      && forall i :: 0 <= i < |chain| ==> p !in chain[i].props
  {
    var x := PropertyNotFound(p, assembly, t.name);
    PrintedIff(t, oldNames, analysis, newAnalysis, resolves, assembly, x);
    if t.name in analysis && Missing in analysis[t.name] {
      var kinds := analysis[t.name][Missing];
      if "property" in kinds {
        PropertyReportedIff(t, kinds["property"], resolves, assembly, p);
        if p in kinds["property"] {
          assert |kinds["property"]| > 0;
        }
      }
      if exists k :: k in kinds && x in KindReports(t, k, kinds[k], resolves, assembly) {
        var k :| k in kinds && x in KindReports(t, k, kinds[k], resolves, assembly);
        KindReportsFlagged(t, k, kinds[k], resolves, assembly, x);
      }
    }
  }

  /**
   A flagged method `name(...)` of an analysed type is printed, split into
   name and signature, exactly when no type of its ancestor chain declares
   `name` with a signature that resolves on `t`.
   */
  lemma PrintedMethodIff(t: TypeNode, oldNames: seq<string>, analysis: AnalysisTable, newAnalysis: NewTable,
                         resolves: Resolver, assembly: string, s: string)
    requires FlaggedSplittable(analysis, t.name)
    requires t.name in analysis && Missing in analysis[t.name] && "method" in analysis[t.name][Missing]
    requires s in analysis[t.name][Missing]["method"]
    ensures var chain := ParentTypes(t);
      var name := SplitSignature(s).0;
      MethodLine(t, s, assembly) in Printed(ReflectType(t, oldNames, analysis, newAnalysis, resolves, assembly)) <==>
      !exists j, s' :: 0 <= j < |chain| && (name, s') in chain[j].methods && resolves(t, name, Tokens(s'))
  {
    var kinds := analysis[t.name][Missing];
    var names := kinds["method"];
    var i :| 0 <= i < |names| && names[i] == s;
    var x := MethodLine(t, s, assembly);
    PrintedIff(t, oldNames, analysis, newAnalysis, resolves, assembly, x);
    MethodReportedIff(t, names, resolves, assembly, i);
    assert |names| > 0;
    if exists k :: k in kinds && x in KindReports(t, k, kinds[k], resolves, assembly) {
      var k :| k in kinds && x in KindReports(t, k, kinds[k], resolves, assembly);
      KindReportsFlagged(t, k, kinds[k], resolves, assembly, x);
    }
  }

  /** Every flagged constructor of an analysed type is printed, split into name and signature. */
  lemma FlaggedConstructorsPrinted(t: TypeNode, oldNames: seq<string>, analysis: AnalysisTable, newAnalysis: NewTable,
                                   resolves: Resolver, assembly: string, s: string)
    requires FlaggedSplittable(analysis, t.name)
    requires t.name in analysis && Missing in analysis[t.name] && "constructor" in analysis[t.name][Missing]
    requires s in analysis[t.name][Missing]["constructor"]
    ensures ConstructorNotFound(SplitSignature(s).0, SplitSignature(s).1, assembly, t.name) in
      Printed(ReflectType(t, oldNames, analysis, newAnalysis, resolves, assembly))
  {
    var kinds := analysis[t.name][Missing];
    var names := kinds["constructor"];
    var i :| 0 <= i < |names| && names[i] == s;
    var r := KindReports(t, "constructor", names, resolves, assembly);
    assert r == ConstructorReports(names, assembly, t.name);
    SplitSignatureUnique(s, r[i].name, r[i].signature);
    assert r[i] in r;
    assert |names| > 0;
    PrintedIff(t, oldNames, analysis, newAnalysis, resolves, assembly, r[i]);
  }

  /** The extra section never changes what is printed: the `ecount > 0` branch is empty. */
  lemma ExtraSectionIgnored(t: TypeNode, oldNames: seq<string>, analysis: AnalysisTable, newAnalysis: NewTable,
                            resolves: Resolver, assembly: string, extra: KindTable)
    requires FlaggedSplittable(analysis, t.name)
    requires t.name in analysis
    ensures var analysis' := analysis[t.name := analysis[t.name][Extra := extra]];
      ReflectType(t, oldNames, analysis', newAnalysis, resolves, assembly) ==
      ReflectType(t, oldNames, analysis, newAnalysis, resolves, assembly)
  {
    var entry := analysis[t.name];
    var entry' := entry[Extra := extra];
    assert Missing in entry' <==> Missing in entry;
    if Missing in entry {
      assert entry'[Missing] == entry[Missing];
    }
  }

  /**
   A type is never both analysed and treated as new or unchanged: the
   analysis table takes precedence, then the totally-new table, then the
   older assembly.
   */
  lemma AnalysisTakesPrecedence(t: TypeNode, oldNames: seq<string>, analysis: AnalysisTable, newAnalysis: NewTable,
                                resolves: Resolver, assembly: string)
    requires FlaggedSplittable(analysis, t.name)
    requires t.name in analysis && Registered(newAnalysis, t.name) && t.name in oldNames
    ensures ReflectType(t, oldNames, analysis, newAnalysis, resolves, assembly).Analysed?
  {
  }

  /** Types that are not analysed print nothing. */
  lemma OnlyAnalysedTypesPrint(t: TypeNode, oldNames: seq<string>, analysis: AnalysisTable, newAnalysis: NewTable,
                               resolves: Resolver, assembly: string)
    requires FlaggedSplittable(analysis, t.name)
    requires t.name !in analysis
    ensures Printed(ReflectType(t, oldNames, analysis, newAnalysis, resolves, assembly)) == {}
  {
  }
}
