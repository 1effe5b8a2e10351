/**
 Worked examples of the comparer on small hand-built inputs: a `Widget`
 whose base type is `Shape`, whose base type is the root `Object`.
 */
module Scenarios {
  import opened Wrappers
  import opened Signatures
  import opened Hierarchy
  import opened XmlDiffParser
  import opened Comparer

  const Root: TypeNode := TypeNode("Object", None, [], [])

  /** `Shape` declares a `Color` property and a `Draw(System.String)` method. */
  const Shape: TypeNode := TypeNode("Shape", Some(Root), ["Color"], [("Draw", "(System.String)")])

  /** A `Widget` deriving from `base`, declaring nothing itself. */
  function Widget(base: TypeNode): TypeNode {
    TypeNode("Widget", Some(base), [], [])
  }

  /** A property that no type of the chain declares is reported. */
  lemma PropertyMissingEverywhere()
    ensures KindReports(Widget(Root), "property", ["Color"], (t, n, ts) => false, "new.dll") ==
      [PropertyNotFound("Color", "new.dll", "Widget")]
  {
    assert ParentTypes(Widget(Root)) == [Widget(Root), Root];
    assert "Color" !in Properties(ParentTypes(Widget(Root)));
  }

  /** The same property declared on the base type is suppressed. */
  lemma PropertyInheritedSuppressed()
    ensures KindReports(Widget(Shape), "property", ["Color"], (t, n, ts) => false, "new.dll") == []
  {
    assert ParentTypes(Widget(Shape)) == [Widget(Shape), Shape, Root];
    assert "Color" in Properties(ParentTypes(Widget(Shape)));
  }

  /** `Draw(System.Int32)` splits at its parenthesis. */
  lemma SplitDraw()
    ensures SplitSignature("Draw(System.Int32)") == ("Draw", "(System.Int32)")
  {
    SplitSignatureUnique("Draw(System.Int32)", "Draw", "(System.Int32)");
  }

  /** The base type's signature `(System.String)` asks for the single type `System.String`. */
  lemma StringSignatureTokens()
    ensures Tokens("(System.String)") == ["System.String"]
  {
    var parts := [("System.String", ")")];
    assert Join("(", parts) == "(System.String)";
    assert Words(parts) == ["System.String"];
    TokensOfLayout("(", parts);
  }

  /**
   A flagged `Draw(System.Int32)` is suppressed when the base type declares
   only `Draw(System.String)`, provided that overload resolves on the
   type: the check uses the base type's signature, not the flagged one.
   */
  lemma OtherOverloadSuppresses(resolves: Resolver)
    requires resolves(Widget(Shape), "Draw", ["System.String"])
    ensures KindReports(Widget(Shape), "method", ["Draw(System.Int32)"], resolves, "new.dll") == []
  {
    SplitDraw();
    StringSignatureTokens();
    var names := ["Draw(System.Int32)"];
    assert ParentTypes(Widget(Shape))[1] == Shape;
    ResolvingOverloadSuppressesAll(Widget(Shape), names, resolves, "new.dll", 1, "(System.String)");
  }

  /** Without a resolving overload the flagged method is reported, split into name and signature. */
  lemma NoResolvingOverloadReports(resolves: Resolver)
    requires !resolves(Widget(Shape), "Draw", ["System.String"])
    ensures MethodNotFound("Draw", "(System.Int32)", "new.dll", "Widget") in
      KindReports(Widget(Shape), "method", ["Draw(System.Int32)"], resolves, "new.dll")
  {
    SplitDraw();
    var w := Widget(Shape);
    NoDrawResolves(resolves);
    MethodReportedIff(w, ["Draw(System.Int32)"], resolves, "new.dll", 0);
  }

  /** The only `Draw` on the chain of `Widget(Shape)` is the base type's `Draw(System.String)`. */
  lemma NoDrawResolves(resolves: Resolver)
    requires !resolves(Widget(Shape), "Draw", ["System.String"])
    ensures var chain := ParentTypes(Widget(Shape));
      !exists j, s :: 0 <= j < |chain| && ("Draw", s) in chain[j].methods && resolves(Widget(Shape), "Draw", Tokens(s))
  {
    var chain := ParentTypes(Widget(Shape));
    assert chain == [Widget(Shape), Shape, Root];
    forall j, s | 0 <= j < |chain| && ("Draw", s) in chain[j].methods
      ensures !resolves(Widget(Shape), "Draw", Tokens(s))
    {
      StringSignatureTokens();
      assert j == 1 && s == "(System.String)";
    }
  }

  /**
   A class element marked missing whose only child is an `attribute` element
   never enters the analysis table, so the type is later left unanalysed.
   */
  lemma AttributeOnlyClassNotAnalysed(p: Parser)
    requires "Gadget" !in p.analysis
    ensures var n := Node("class", [("name", "Gadget"), ("missing", "1")], [Node("attribute", [("name", "Obsolete")], [])]);
      "Gadget" !in ParseClass(n, p).analysis
  {
    var rest := [("missing", "1")];
    assert [("name", "Gadget"), ("missing", "1")] == [("name", "Gadget")] + rest;
    ScanNamedClass("Gadget", rest, true, p);
    var children := [Node("attribute", [("name", "Obsolete")], [])];
    assert Leaves(children) == [] by {
      assert children[1..] == [];
    }
  }

  /** A childless class element with a `presence` attribute is registered as totally new and adds nothing to the analysis table. */
  lemma NewClassOnlyRegistered(p: Parser)
    requires "Gadget" !in p.extra
    ensures var r := ParseClass(Node("class", [("name", "Gadget"), ("presence", "new")], []), p);
      && Registered(r.newAnalysis, "Gadget")
      && r.analysis == p.analysis
      && "Gadget" !in r.extra
  {
    var rest := [("presence", "new")];
    assert [("name", "Gadget"), ("presence", "new")] == [("name", "Gadget")] + rest;
    ScanNamedClass("Gadget", rest, false, p);
    assert rest[0].0 == "presence";
  }
}
