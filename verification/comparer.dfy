/**
 The classification half of `Comparer.ReflectAssembly`: for every type the
 newer assembly exports, look the type up in the analysis tables and, when
 the diff report flags missing members for it, decide per member kind which
 of them are real breakages and which are still reachable through
 inheritance. Reflection is replaced by `TypeNode` values and by a `Resolver`
 standing for `Type.GetMethod`; report lines are values of `Report`.
 */
module Comparer {
  import opened Wrappers
  import opened Signatures
  import opened Hierarchy
  import opened XmlDiffParser

  /** One printed line of the comparer. */
  datatype Report =
    | ConstructorNotFound(name: string, signature: string, assembly: string, typeName: string)
    | PropertyNotFound(name: string, assembly: string, typeName: string)
    | MethodNotFound(name: string, signature: string, assembly: string, typeName: string)
    | NotImplemented(kind: string, member: string)

  /**
   `t.GetMethod(name, types)` with the types given by their tokens: whether a
   public method of that name and parameter list resolves on `t`. Reflection
   is not modelled, so this is a parameter.
   */
  type Resolver = (TypeNode, string, seq<string>) -> bool

  /** Every signature has a `(`, which the source needs to split it. */
  predicate Splittable(names: seq<string>) {
    forall i :: 0 <= i < |names| ==> '(' in names[i]
  }

  // ----- the four arms of the kind switch -----

  /** Constructors are not inherited: every flagged one is reported, split into name and signature. */
  function ConstructorReports(names: seq<string>, assembly: string, typeName: string): (r: seq<Report>)
    requires Splittable(names)
    ensures |r| == |names|
    ensures forall i :: 0 <= i < |names| ==>
      && r[i].ConstructorNotFound?
      && r[i].name + r[i].signature == names[i]
      && '(' !in r[i].name && |r[i].signature| > 0 && r[i].signature[0] == '('
      && r[i].assembly == assembly && r[i].typeName == typeName
  {
    if names == [] then []
    else
      var (name, sign) := SplitSignature(names[0]);
      [ConstructorNotFound(name, sign, assembly, typeName)] + ConstructorReports(names[1..], assembly, typeName)
  }

  /** A flagged property is reported exactly when its name is not among `props`. */
  function PropertyReports(names: seq<string>, props: seq<string>, assembly: string, typeName: string): (r: seq<Report>)
    ensures forall x :: PropertyNotFound(x, assembly, typeName) in r <==> x in names && x !in props
    ensures forall i :: 0 <= i < |r| ==> r[i].PropertyNotFound? && r[i].assembly == assembly && r[i].typeName == typeName
    ensures |r| <= |names|
  {
    if names == [] then []
    else
      var rest := PropertyReports(names[1..], props, assembly, typeName);
      assert forall x :: x in names <==> x == names[0] || x in names[1..];
      if names[0] !in props then [PropertyNotFound(names[0], assembly, typeName)] + rest else rest
  }

  /**
   The `found` flag of the method arm: the aggregate has an entry for the
   name and one of its signatures, tokenized, resolves on `t`. The tokens are
   those of the ancestor's signature, not of the flagged one.
   */
  predicate MethodFound(t: TypeNode, table: MethodTable, name: string, resolves: Resolver) {
    name in table && AnyResolves(t, name, table[name], resolves)
  }

  /** The inner loop over the signatures recorded for `name`: does one of them resolve on `t`? */
  predicate AnyResolves(t: TypeNode, name: string, sigs: seq<string>, resolves: Resolver) {
    sigs != [] && (resolves(t, name, Tokens(sigs[0])) || AnyResolves(t, name, sigs[1..], resolves))
  }

  /** The loop finds a resolving signature exactly when the list holds one. */
  lemma {:induction false} AnyResolvesIff(t: TypeNode, name: string, sigs: seq<string>, resolves: Resolver)
    ensures AnyResolves(t, name, sigs, resolves) <==> exists s :: s in sigs && resolves(t, name, Tokens(s))
  {
    if sigs != [] {
      AnyResolvesIff(t, name, sigs[1..], resolves);
      if resolves(t, name, Tokens(sigs[0])) {
        assert sigs[0] in sigs;
      }
      if exists s :: s in sigs && resolves(t, name, Tokens(s)) {
        var s :| s in sigs && resolves(t, name, Tokens(s));
        assert s == sigs[0] || s in sigs[1..];
      }
      if AnyResolves(t, name, sigs[1..], resolves) {
        var s :| s in sigs[1..] && resolves(t, name, Tokens(s));
        assert s in sigs;
      }
    }
  }

  /**
   The search of the method arm as the source runs it: every signature of
   the name's entry is tried, and `found` is set once one resolves.
   */
  method SearchOverloads(t: TypeNode, table: MethodTable, name: string, resolves: Resolver) returns (found: bool)
    ensures found <==> name in table && exists s :: s in table[name] && resolves(t, name, Tokens(s))
    ensures found == MethodFound(t, table, name, resolves)
  {
    found := false;
    if name in table {
      var sigs := table[name];
      var i := 0;
      while i < |sigs|
        invariant 0 <= i <= |sigs|
        invariant found <==> exists j :: 0 <= j < i && resolves(t, name, Tokens(sigs[j]))
      {
        if resolves(t, name, Tokens(sigs[i])) {
          found := true;
        }
        i := i + 1;
      }
      AnyResolvesIff(t, name, sigs, resolves);
      assert found <==> exists s :: s in sigs && resolves(t, name, Tokens(s)) by {
        if found {
          var j :| 0 <= j < |sigs| && resolves(t, name, Tokens(sigs[j]));
          assert sigs[j] in sigs;
        }
      }
    }
  }

  /** The line printed for a flagged method that was not found. */
  function MethodLine(t: TypeNode, s: string, assembly: string): (x: Report)
    requires '(' in s
    ensures x.MethodNotFound? && x.name + x.signature == s
    ensures x.assembly == assembly && x.typeName == t.name
  {
    var (name, sign) := SplitSignature(s);
    MethodNotFound(name, sign, assembly, t.name)
  }

  /** The method arm keeps, in order, the lines of the flagged methods that are not found. */
  function MethodReports(t: TypeNode, names: seq<string>, table: MethodTable, resolves: Resolver, assembly: string): (r: seq<Report>)
    requires Splittable(names)
    ensures forall x :: x in r <==> Kept(t, names, table, resolves, assembly, x)
    ensures |r| <= |names|
  {
    if names == [] then []
    else
      SplittableTail(names);
      var rest := MethodReports(t, names[1..], table, resolves, assembly);
      KeptCons(t, names, table, resolves, assembly, rest);
      MethodHead(t, names[0], table, resolves, assembly) + rest
  }

  /** `x` is the line of some flagged method whose name the aggregate does not find. */
  predicate Kept(t: TypeNode, names: seq<string>, table: MethodTable, resolves: Resolver, assembly: string, x: Report)
    requires Splittable(names)
  {
    exists i {:trigger MethodLine(t, names[i], assembly)} :: 0 <= i < |names| && x == MethodLine(t, names[i], assembly) &&
                !MethodFound(t, table, SplitSignature(names[i]).0, resolves)
  }

  /** The lines one flagged method contributes to the method arm: its split line when its name is not found. */
  function MethodHead(t: TypeNode, s: string, table: MethodTable, resolves: Resolver, assembly: string): seq<Report>
    requires '(' in s
  {
    if MethodFound(t, table, SplitSignature(s).0, resolves) then [] else [MethodLine(t, s, assembly)]
  }

  /** The membership step of `MethodReports`: the kept lines of `names` are the first name's, then the rest's. */
  lemma KeptCons(t: TypeNode, names: seq<string>, table: MethodTable, resolves: Resolver, assembly: string, rest: seq<Report>)
    requires names != [] && Splittable(names) && Splittable(names[1..])
    requires forall x :: x in rest <==> Kept(t, names[1..], table, resolves, assembly, x)
    ensures forall x :: x in MethodHead(t, names[0], table, resolves, assembly) + rest <==> Kept(t, names, table, resolves, assembly, x)
  {
    forall x
      ensures x in MethodHead(t, names[0], table, resolves, assembly) + rest <==> Kept(t, names, table, resolves, assembly, x)
    {
      KeptSplit(t, names, table, resolves, assembly, x);
    }
  }

  /** A line is kept for `names` exactly when it is the first name's kept line or is kept for the rest. */
  lemma KeptSplit(t: TypeNode, names: seq<string>, table: MethodTable, resolves: Resolver, assembly: string, x: Report)
    requires names != [] && Splittable(names) && Splittable(names[1..])
    ensures Kept(t, names, table, resolves, assembly, x) <==>
      x in MethodHead(t, names[0], table, resolves, assembly) || Kept(t, names[1..], table, resolves, assembly, x)
  {
    if Kept(t, names[1..], table, resolves, assembly, x) {
      KeptFromTail(t, names, table, resolves, assembly, x);
    }
    if Kept(t, names, table, resolves, assembly, x) && x !in MethodHead(t, names[0], table, resolves, assembly) {
      KeptInTail(t, names, table, resolves, assembly, x);
    }
  }

  /** A line kept for the rest of the names is kept for all of them. */
  lemma KeptFromTail(t: TypeNode, names: seq<string>, table: MethodTable, resolves: Resolver, assembly: string, x: Report)
    requires names != [] && Splittable(names) && Splittable(names[1..])
    requires Kept(t, names[1..], table, resolves, assembly, x)
    ensures Kept(t, names, table, resolves, assembly, x)
  {
    var tail := names[1..];
    var k :| 0 <= k < |tail| && x == MethodLine(t, tail[k], assembly) &&
             !MethodFound(t, table, SplitSignature(tail[k]).0, resolves);
    assert tail[k] == names[k + 1];
    KeptAt(t, names, table, resolves, assembly, k + 1);
  }

  /** The line of a flagged method whose name is not found is kept. */
  lemma KeptAt(t: TypeNode, names: seq<string>, table: MethodTable, resolves: Resolver, assembly: string, i: nat)
    requires Splittable(names) && i < |names|
    requires !MethodFound(t, table, SplitSignature(names[i]).0, resolves)
    ensures Kept(t, names, table, resolves, assembly, MethodLine(t, names[i], assembly))
  {
  }

  /** A line kept for the names that is not the first name's is kept for the rest. */
  lemma KeptInTail(t: TypeNode, names: seq<string>, table: MethodTable, resolves: Resolver, assembly: string, x: Report)
    requires names != [] && Splittable(names) && Splittable(names[1..])
    requires Kept(t, names, table, resolves, assembly, x) && x !in MethodHead(t, names[0], table, resolves, assembly)
    ensures Kept(t, names[1..], table, resolves, assembly, x)
  {
    var k :| 0 <= k < |names| && x == MethodLine(t, names[k], assembly) &&
             !MethodFound(t, table, SplitSignature(names[k]).0, resolves);
    assert k != 0;
    assert names[1..][k - 1] == names[k];
    assert 0 <= k - 1 < |names[1..]| && x == MethodLine(t, names[1..][k - 1], assembly) &&
           !MethodFound(t, table, SplitSignature(names[1..][k - 1]).0, resolves);
  }

  /** Dropping the first signature keeps the rest splittable. */
  lemma SplittableTail(names: seq<string>)
    requires Splittable(names) && names != []
    ensures Splittable(names[1..])
  {
    forall i | 0 <= i < |names| - 1 ensures '(' in names[1..][i] { assert names[1..][i] == names[i + 1]; }
  }

  /** Every line of the method arm is a method line for `t` in the newer assembly. */
  lemma MethodReportsAreMethodLines(t: TypeNode, names: seq<string>, table: MethodTable, resolves: Resolver, assembly: string)
    requires Splittable(names)
    ensures var r := MethodReports(t, names, table, resolves, assembly);
      forall x :: x in r ==> x.MethodNotFound? && x.assembly == assembly && x.typeName == t.name
  {
    var r := MethodReports(t, names, table, resolves, assembly);
    forall x | x in r
      ensures x.MethodNotFound? && x.assembly == assembly && x.typeName == t.name
    {
      var i :| 0 <= i < |names| && x == MethodLine(t, names[i], assembly) &&
               !MethodFound(t, table, SplitSignature(names[i]).0, resolves);
    }
  }

  /** The property arm works name by name: the lines for `a + b` are those for `a` followed by those for `b`. */
  lemma {:induction false} PropertyReportsAppend(a: seq<string>, b: seq<string>, props: seq<string>, assembly: string, typeName: string)
    ensures PropertyReports(a + b, props, assembly, typeName) ==
      PropertyReports(a, props, assembly, typeName) + PropertyReports(b, props, assembly, typeName)
  {
    if a == [] {
      assert a + b == b;
    } else {
      assert (a + b)[0] == a[0] && (a + b)[1..] == a[1..] + b;
      PropertyReportsAppend(a[1..], b, props, assembly, typeName);
    }
  }

  /** One flagged property gives one line when no type of the chain has it and none otherwise. */
  lemma PropertyReportsSingle(x: string, props: seq<string>, assembly: string, typeName: string)
    ensures PropertyReports([x], props, assembly, typeName) ==
      if x in props then [] else [PropertyNotFound(x, assembly, typeName)]
  {
  }

  /** Joining two lists of signatures keeps every one splittable. */
  lemma SplittableAppend(a: seq<string>, b: seq<string>)
    requires Splittable(a) && Splittable(b)
    ensures Splittable(a + b)
  {
    forall i | 0 <= i < |a + b| ensures '(' in (a + b)[i] {
      if i < |a| { assert (a + b)[i] == a[i]; } else { assert (a + b)[i] == b[i - |a|]; }
    }
  }

  /** One step of the method arm: the first name's line, if kept, then the lines of the rest. */
  lemma MethodReportsCons(t: TypeNode, names: seq<string>, table: MethodTable, resolves: Resolver, assembly: string)
    requires Splittable(names) && names != []
    ensures MethodReports(t, names, table, resolves, assembly) ==
      MethodHead(t, names[0], table, resolves, assembly) + MethodReports(t, names[1..], table, resolves, assembly)
  {
  }

  /** The method arm works name by name: the lines for `a + b` are those for `a` followed by those for `b`. */
  lemma {:induction false} MethodReportsAppend(t: TypeNode, a: seq<string>, b: seq<string>, table: MethodTable, resolves: Resolver, assembly: string)
    requires Splittable(a) && Splittable(b)
    ensures Splittable(a + b)
    ensures MethodReports(t, a + b, table, resolves, assembly) ==
      MethodReports(t, a, table, resolves, assembly) + MethodReports(t, b, table, resolves, assembly)
  {
    SplittableAppend(a, b);
    if a == [] {
      assert a + b == b;
    } else {
      SplittableTail(a);
      MethodReportsAppend(t, a[1..], b, table, resolves, assembly);
      MethodReportsAppendStep(t, a, b, table, resolves, assembly);
    }
  }

  /** The inductive step of `MethodReportsAppend`: the first name of `a` leads on both sides. */
  lemma MethodReportsAppendStep(t: TypeNode, a: seq<string>, b: seq<string>, table: MethodTable, resolves: Resolver, assembly: string)
    requires a != [] && '(' in a[0] && Splittable(a) && Splittable(a[1..]) && Splittable(b)
    requires Splittable(a + b) && Splittable(a[1..] + b)
    requires MethodReports(t, a[1..] + b, table, resolves, assembly) ==
      MethodReports(t, a[1..], table, resolves, assembly) + MethodReports(t, b, table, resolves, assembly)
    ensures MethodReports(t, a + b, table, resolves, assembly) ==
      MethodReports(t, a, table, resolves, assembly) + MethodReports(t, b, table, resolves, assembly)
  {
    var h := MethodHead(t, a[0], table, resolves, assembly);
    var rt := MethodReports(t, a[1..], table, resolves, assembly);
    var rb := MethodReports(t, b, table, resolves, assembly);
    assert MethodReports(t, a, table, resolves, assembly) == h + rt by {
      MethodReportsCons(t, a, table, resolves, assembly);
    }
    assert MethodReports(t, a + b, table, resolves, assembly) == h + (rt + rb) by {
      DropAppend(a, b);
      MethodReportsCons(t, a + b, table, resolves, assembly);
    }
    AppendAssoc(h, rt, rb);
  }

  /** One flagged method gives its split line when the aggregate does not find its name, and nothing otherwise. */
  lemma MethodReportsSingle(t: TypeNode, s: string, table: MethodTable, resolves: Resolver, assembly: string)
    requires '(' in s
    ensures MethodReports(t, [s], table, resolves, assembly) ==
      if MethodFound(t, table, SplitSignature(s).0, resolves) then []
      else [MethodNotFound(SplitSignature(s).0, SplitSignature(s).1, assembly, t.name)]
  {
  }

  /** Any other kind: every flagged member is printed as not implemented. */
  function NotImplementedReports(kind: string, names: seq<string>): (r: seq<Report>)
    ensures |r| == |names|
    ensures forall i :: 0 <= i < |names| ==> r[i] == NotImplemented(kind, names[i])
  {
    if names == [] then [] else [NotImplemented(kind, names[0])] + NotImplementedReports(kind, names[1..])
  }

  /** The kinds whose arm splits signatures. */
  predicate SplitsSignatures(kind: string) {
    kind == "constructor" || kind == "method"
  }

  /** The member kind a printed line speaks about. */
  function KindOf(x: Report): string {
    match x
    case ConstructorNotFound(_, _, _, _) => "constructor"
    case PropertyNotFound(_, _, _) => "property"
    case MethodNotFound(_, _, _, _) => "method"
    case NotImplemented(kind, _) => kind
  }

  /**
   The `switch` on the member kind for the flagged `names` of type `t`: each
   arm prints only lines of its own kind, never more lines than names, and
   the constructor and default arms print exactly one line per name.
   */
  function KindReports(t: TypeNode, kind: string, names: seq<string>, resolves: Resolver, assembly: string): (r: seq<Report>)
    requires SplitsSignatures(kind) ==> Splittable(names)
    ensures forall i :: 0 <= i < |r| ==> KindOf(r[i]) == kind
    ensures |r| <= |names|
    ensures kind != "property" && kind != "method" ==> |r| == |names|
  {
    match kind
    case "constructor" => ConstructorReports(names, assembly, t.name)
    case "property" => PropertyReports(names, Properties(ParentTypes(t)), assembly, t.name)
    case "method" =>
      var r := MethodReports(t, names, MethodTableOf(ParentTypes(t)), resolves, assembly);
      MethodReportsAreMethodLines(t, names, MethodTableOf(ParentTypes(t)), resolves, assembly);
      assert forall i :: 0 <= i < |r| ==> r[i] in r;
      r
    case _ => NotImplementedReports(kind, names)
  }

  // ----- where a printed line comes from -----

  /** A printed line of the switch speaks of `t`, of the newer assembly and of one of the flagged names of its kind. */
  lemma KindReportsFlagged(t: TypeNode, kind: string, names: seq<string>, resolves: Resolver, assembly: string, x: Report)
    requires SplitsSignatures(kind) ==> Splittable(names)
    requires x in KindReports(t, kind, names, resolves, assembly)
    ensures match x
      case ConstructorNotFound(name, sign, a, tn) =>
        kind == "constructor" && a == assembly && tn == t.name && name + sign in names
      case PropertyNotFound(name, a, tn) =>
        kind == "property" && a == assembly && tn == t.name && name in names
      case MethodNotFound(name, sign, a, tn) =>
        kind == "method" && a == assembly && tn == t.name && name + sign in names
      case NotImplemented(k, member) =>
        k == kind && kind != "constructor" && kind != "property" && kind != "method" && member in names
  {
    if kind == "constructor" {
      ConstructorLineFlagged(names, assembly, t.name, x);
    } else if kind == "property" {
      PropertyLineFlagged(names, Properties(ParentTypes(t)), assembly, t.name, x);
    } else if kind == "method" {
      MethodLineFlagged(t, names, MethodTableOf(ParentTypes(t)), resolves, assembly, x);
    } else {
      var r := NotImplementedReports(kind, names);
      var i :| 0 <= i < |r| && r[i] == x;
      assert names[i] in names;
    }
  }

  /** A constructor line splits one of the flagged constructors. */
  lemma ConstructorLineFlagged(names: seq<string>, assembly: string, typeName: string, x: Report)
    requires Splittable(names)
    requires x in ConstructorReports(names, assembly, typeName)
    ensures x.ConstructorNotFound? && x.assembly == assembly && x.typeName == typeName && x.name + x.signature in names
  {
    var r := ConstructorReports(names, assembly, typeName);
    var i :| 0 <= i < |r| && r[i] == x;
    assert names[i] in names;
  }

  /** A property line names one of the flagged properties. */
  lemma PropertyLineFlagged(names: seq<string>, props: seq<string>, assembly: string, typeName: string, x: Report)
    requires x in PropertyReports(names, props, assembly, typeName)
    ensures x.PropertyNotFound? && x.assembly == assembly && x.typeName == typeName && x.name in names
  {
    var r := PropertyReports(names, props, assembly, typeName);
    var i :| 0 <= i < |r| && r[i] == x;
    assert x == PropertyNotFound(x.name, assembly, typeName);
  }

  /** A method line splits one of the flagged methods. */
  lemma MethodLineFlagged(t: TypeNode, names: seq<string>, table: MethodTable, resolves: Resolver, assembly: string, x: Report)
    requires Splittable(names)
    requires x in MethodReports(t, names, table, resolves, assembly)
    ensures x.MethodNotFound? && x.assembly == assembly && x.typeName == t.name && x.name + x.signature in names
  {
    var i :| 0 <= i < |names| && x == MethodLine(t, names[i], assembly) &&
             !MethodFound(t, table, SplitSignature(names[i]).0, resolves);
    assert names[i] in names;
  }

  // ----- the kind rules, stated over the ancestor chain -----

  /**
   Every flagged constructor gives one line, and the lines are the same for
   any two types of the same name, whatever their ancestors declare and
   whatever resolves.
   */
  lemma ConstructorsAlwaysReported(t: TypeNode, u: TypeNode, names: seq<string>, resolves: Resolver, resolves': Resolver, assembly: string)
    requires Splittable(names)
    requires t.name == u.name
    ensures var r := KindReports(t, "constructor", names, resolves, assembly);
      && r == KindReports(u, "constructor", names, resolves', assembly)
      && |r| == |names|
      && forall i :: 0 <= i < |names| ==> r[i].ConstructorNotFound? && r[i].name + r[i].signature == names[i]
  {
  }

  /** A flagged property is reported exactly when no type of the chain has a property of that name. */
  lemma PropertyReportedIff(t: TypeNode, names: seq<string>, resolves: Resolver, assembly: string, x: string)
    ensures var chain := ParentTypes(t);
      PropertyNotFound(x, assembly, t.name) in KindReports(t, "property", names, resolves, assembly) <==>
      x in names && forall i :: 0 <= i < |chain| ==> x !in chain[i].props
  {
  }

  /** A name the aggregate finds is declared, with a resolving signature, by some type of the chain. */
  lemma FoundIsDeclared(t: TypeNode, chain: seq<TypeNode>, name: string, resolves: Resolver)
    requires MethodFound(t, MethodTableOf(chain), name, resolves)
    ensures exists j, s :: 0 <= j < |chain| && (name, s) in chain[j].methods && resolves(t, name, Tokens(s))
  {
    var table := MethodTableOf(chain);
    AnyResolvesIff(t, name, table[name], resolves);
    var s :| s in table[name] && resolves(t, name, Tokens(s));
    var j :| 0 <= j < |chain| && (name, s) in chain[j].methods;
  }

  /** A declaration on the chain whose signature resolves makes the aggregate find the name. */
  lemma DeclaredIsFound(t: TypeNode, chain: seq<TypeNode>, name: string, resolves: Resolver, j: nat, s: string)
    requires j < |chain| && (name, s) in chain[j].methods && resolves(t, name, Tokens(s))
    ensures MethodFound(t, MethodTableOf(chain), name, resolves)
  {
    var table := MethodTableOf(chain);
    assert name in table && s in table[name];
    AnyResolvesIff(t, name, table[name], resolves);
  }

  /** The aggregate finds `name` exactly when some type of the chain declares `name` with a signature that resolves on `t`. */
  lemma MethodFoundIff(t: TypeNode, chain: seq<TypeNode>, name: string, resolves: Resolver)
    ensures MethodFound(t, MethodTableOf(chain), name, resolves) <==>
      exists j, s :: 0 <= j < |chain| && (name, s) in chain[j].methods && resolves(t, name, Tokens(s))
  {
    if MethodFound(t, MethodTableOf(chain), name, resolves) {
      FoundIsDeclared(t, chain, name, resolves);
    }
    if exists j, s :: 0 <= j < |chain| && (name, s) in chain[j].methods && resolves(t, name, Tokens(s)) {
      var j, s :| 0 <= j < |chain| && (name, s) in chain[j].methods && resolves(t, name, Tokens(s));
      DeclaredIsFound(t, chain, name, resolves, j, s);
    }
  }

  /** Over a given aggregate, the line of the `i`-th flagged method is kept exactly when its name is not found. */
  lemma MethodLineKeptIff(t: TypeNode, names: seq<string>, table: MethodTable, resolves: Resolver, assembly: string, i: nat)
    requires Splittable(names) && i < |names|
    ensures MethodLine(t, names[i], assembly) in MethodReports(t, names, table, resolves, assembly) <==>
      !MethodFound(t, table, SplitSignature(names[i]).0, resolves)
  {
    var line := MethodLine(t, names[i], assembly);
    var r := MethodReports(t, names, table, resolves, assembly);
    if line in r {
      var k :| 0 <= k < |names| && line == MethodLine(t, names[k], assembly) &&
               !MethodFound(t, table, SplitSignature(names[k]).0, resolves);
      assert names[k] == names[i];
    }
  }

  /** When every flagged name is found, the method arm prints nothing. */
  lemma {:induction false} AllFoundNothingReported(t: TypeNode, names: seq<string>, table: MethodTable, resolves: Resolver, assembly: string)
    requires Splittable(names)
    requires forall i :: 0 <= i < |names| ==> MethodFound(t, table, SplitSignature(names[i]).0, resolves)
    ensures MethodReports(t, names, table, resolves, assembly) == []
  {
    if names != [] {
      assert forall i :: 1 <= i < |names| ==> names[i] == names[1..][i - 1];
      AllFoundNothingReported(t, names[1..], table, resolves, assembly);
    }
  }

  /**
   A flagged method `name(...)` is reported exactly when no type of the chain
   declares a method `name` one of whose signatures resolves on `t`.
   */
  lemma MethodReportedIff(t: TypeNode, names: seq<string>, resolves: Resolver, assembly: string, i: nat)
    requires Splittable(names) && i < |names|
    ensures var chain := ParentTypes(t);
      var name := SplitSignature(names[i]).0;
      MethodLine(t, names[i], assembly) in KindReports(t, "method", names, resolves, assembly) <==>
      !exists j, s :: 0 <= j < |chain| && (name, s) in chain[j].methods && resolves(t, name, Tokens(s))
  {
    MethodArm(t, names, resolves, assembly);
    MethodFoundIff(t, ParentTypes(t), SplitSignature(names[i]).0, resolves);
    MethodLineKeptIff(t, names, MethodTableOf(ParentTypes(t)), resolves, assembly, i);
  }

  /** The method arm of the switch runs over the aggregate of the ancestor chain. */
  lemma MethodArm(t: TypeNode, names: seq<string>, resolves: Resolver, assembly: string)
    requires Splittable(names)
    ensures KindReports(t, "method", names, resolves, assembly) ==
      MethodReports(t, names, MethodTableOf(ParentTypes(t)), resolves, assembly)
  {
  }

  /** A flagged method whose name no type of the chain declares is always reported. */
  lemma UndeclaredMethodReported(t: TypeNode, names: seq<string>, resolves: Resolver, assembly: string, i: nat)
    requires Splittable(names) && i < |names|
    requires var chain := ParentTypes(t);
      forall j, s :: 0 <= j < |chain| ==> (SplitSignature(names[i]).0, s) !in chain[j].methods
    ensures MethodLine(t, names[i], assembly) in KindReports(t, "method", names, resolves, assembly)
  {
    MethodReportedIff(t, names, resolves, assembly, i);
  }

  /**
   The method rule looks at the ancestors' signatures, not at the flagged
   one: once any declared overload of `name` resolves on `t`, every flagged
   `name(...)` is suppressed, whatever its own parameter list.
   */
  lemma ResolvingOverloadSuppressesAll(t: TypeNode, names: seq<string>, resolves: Resolver, assembly: string, j: nat, s: string)
    requires Splittable(names)
    requires j < |ParentTypes(t)|
    requires forall i :: 0 <= i < |names| ==> (SplitSignature(names[i]).0, s) in ParentTypes(t)[j].methods
    requires forall i :: 0 <= i < |names| ==> resolves(t, SplitSignature(names[i]).0, Tokens(s))
    ensures KindReports(t, "method", names, resolves, assembly) == []
  {
    var chain := ParentTypes(t);
    OverloadFoundForAll(t, chain, names, resolves, j, s);
    MethodArm(t, names, resolves, assembly);
    AllFoundNothingReported(t, names, MethodTableOf(chain), resolves, assembly);
  }

  /** One declaration of signature `s` for every flagged name makes the aggregate find each of those names. */
  lemma OverloadFoundForAll(t: TypeNode, chain: seq<TypeNode>, names: seq<string>, resolves: Resolver, j: nat, s: string)
    requires Splittable(names)
    requires j < |chain|
    requires forall i :: 0 <= i < |names| ==> (SplitSignature(names[i]).0, s) in chain[j].methods
    requires forall i :: 0 <= i < |names| ==> resolves(t, SplitSignature(names[i]).0, Tokens(s))
    ensures forall i :: 0 <= i < |names| ==> MethodFound(t, MethodTableOf(chain), SplitSignature(names[i]).0, resolves)
  {
    forall i | 0 <= i < |names|
      ensures MethodFound(t, MethodTableOf(chain), SplitSignature(names[i]).0, resolves)
    {
      DeclaredIsFound(t, chain, SplitSignature(names[i]).0, resolves, j, s);
    }
  }

  /** Members of any other kind are all printed as not implemented, in order. */
  lemma OtherKindsNotImplemented(t: TypeNode, kind: string, names: seq<string>, resolves: Resolver, assembly: string)
    requires kind != "constructor" && kind != "property" && kind != "method"
    ensures var r := KindReports(t, kind, names, resolves, assembly);
      |r| == |names| && forall i :: 0 <= i < |names| ==> r[i] == NotImplemented(kind, names[i])
  {
  }
}
