/**
 The reader of the diff report produced by the external API-diff tool.

 The report is taken already parsed, as the sequence of its `class` elements
 in document order. Each class is classified from its attributes into the
 missing, extra and totally-new lists; missing and extra classes are then
 walked and every member leaf is recorded in the analysis table
 `class -> category -> member kind -> signatures`, while totally new
 classes are listed in a second table keyed by element name.
 */
module XmlDiffParser {
  import opened Wrappers

  /** An element of the report: its tag, its attributes in document order, its child nodes. */
  datatype Node = Node(name: string, attrs: seq<(string, string)>, children: seq<Node>)

  /** The value of the first attribute called `key`, if any (`XmlAttributeCollection[key]`). */
  function Attribute(attrs: seq<(string, string)>, key: string): (r: Option<string>)
    ensures r.None? <==> forall i :: 0 <= i < |attrs| ==> attrs[i].0 != key
    ensures r.Some? ==>
      exists i :: (0 <= i < |attrs| && attrs[i] == (key, r.value) &&
                   forall j :: 0 <= j < i ==> attrs[j].0 != key)
  {
    if attrs == [] then None
    else if attrs[0].0 == key then Some(attrs[0].1)
    else
      var r := Attribute(attrs[1..], key);
      assert forall i :: 1 <= i < |attrs| ==> attrs[i] == attrs[1..][i - 1];
      r
  }

  /** The two sections of a class's analysis: the `what` argument of `LookFor`. */
  datatype Category = Missing | Extra

  /** Member kind (the leaf's tag) to the signatures recorded for it. */
  type KindTable = map<string, seq<string>>
  /** Class name to its sections. */
  type AnalysisTable = map<string, map<Category, KindTable>>
  /** Element name of a totally new class to the class names registered under it. */
  type NewTable = map<string, seq<string>>

  /**
   The parser's fields. The three class lists live for the whole parse,
   so a class name seen in one `class` element still counts for a later
   element of the same name.
   */
  datatype Parser = Parser(
    missing: seq<string>,
    extra: seq<string>,
    newClasses: seq<string>,
    analysis: AnalysisTable,
    newAnalysis: NewTable)

  /** The five empty collections `MakeAnalysis` starts from. */
  const Initial: Parser := Parser([], [], [], map[], map[])

  // ----- views of the analysis table -----

  /** The `what` section of class `cls`, if it exists. */
  function Section(t: AnalysisTable, cls: string, what: Category): Option<KindTable> {
    if cls in t && what in t[cls] then Some(t[cls][what]) else None
  }

  /** The signatures recorded for `kind` in that section; empty when any level is missing. */
  function Sigs(t: AnalysisTable, cls: string, what: Category, kind: string): seq<string> {
    match Section(t, cls, what)
    case None => []
    case Some(kinds) => ListAt(kinds, kind)
  }

  /** No signature list anywhere in the table holds the same signature twice. */
  ghost predicate WellFormed(t: AnalysisTable) {
    forall c, w :: Section(t, c, w).Some? ==> ListsDistinct(Section(t, c, w).value)
  }

  /** Every section other than (`cls`, `what`) is the same in `t` and `r`. */
  ghost predicate OnlySectionChanged(t: AnalysisTable, r: AnalysisTable, cls: string, what: Category) {
    forall c, w :: c != cls || w != what ==> Section(t, c, w) == Section(r, c, w)
  }

  // ----- the member walk (LookFor) -----

  /** Element kinds the walk does not support: they and their subtrees are skipped. */
  predicate Ignored(name: string) {
    name == "warning" || name == "attribute" || name == "parameter"
  }

  /** The signature a leaf of kind `kind` contributes to the list of kind `k`: none or one. */
  function SigOf(k: string, kind: string, sig: Option<string>): (r: seq<string>)
    ensures |r| <= 1
    ensures r != [] <==> k == kind && sig.Some?
    ensures r != [] ==> r[0] == sig.value
  {
    if k == kind && sig.Some? then [sig.value] else []
  }

  /** The signature `leaf` contributes to kind `k`: its `name` attribute if its tag is `k`. */
  function LeafSig(leaf: Node, k: string): seq<string> {
    SigOf(k, leaf.name, Attribute(leaf.attrs, "name"))
  }

  /** Replaces the `what` section of a class already in the table. */
  function PutSection(t: AnalysisTable, cls: string, what: Category, kinds: KindTable): (r: AnalysisTable)
    requires cls in t
    ensures Section(r, cls, what) == Some(kinds)
    ensures OnlySectionChanged(t, r, cls, what)
    ensures WellFormed(t) && ListsDistinct(kinds) ==> WellFormed(r)
  {
    t[cls := t[cls][what := kinds]]
  }

  /** Adds a class not yet in the table with one section. */
  function NewClassEntry(t: AnalysisTable, cls: string, what: Category, kinds: KindTable): (r: AnalysisTable)
    requires cls !in t
    ensures Section(r, cls, what) == Some(kinds)
    ensures OnlySectionChanged(t, r, cls, what)
    ensures WellFormed(t) && ListsDistinct(kinds) ==> WellFormed(r)
  {
    t[cls := map[what := kinds]]
  }

  /**
   The section update of `LookFor` for a leaf of kind `kind`: the kind list is
   created if absent, then the signature is added unless already there.
   */
  function RecordInSection(kinds: KindTable, kind: string, sig: Option<string>): (r: KindTable)
    ensures kind in r
    ensures forall k :: k in r <==> k in kinds || k == kind
    ensures forall k :: ListAt(r, k) == AddAllIfAbsent(ListAt(kinds, k), SigOf(k, kind, sig))
    ensures ListsDistinct(kinds) ==> ListsDistinct(r)
  {
    var list := ListAt(kinds, kind);
    kinds[kind := if sig.Some? then AddIfAbsent(list, sig.value) else list]
  }

  /**
   Records one leaf of class `parent` under `what`. In a class already in the
   table the section and the kind list are created first, so a leaf without a
   `name` attribute (whose lookup throws and is caught) still leaves an empty
   kind list behind; in a class not yet in the table the lookup throws before
   anything is added.
   */
  function RecordLeaf(what: Category, parent: string, leaf: Node, t: AnalysisTable): (r: AnalysisTable)
    ensures OnlySectionChanged(t, r, parent, what)
    ensures forall k :: Sigs(r, parent, what, k) == AddAllIfAbsent(Sigs(t, parent, what, k), LeafSig(leaf, k))
    ensures parent in t ==> Section(r, parent, what).Some? && leaf.name in Section(r, parent, what).value
    ensures parent !in t && Attribute(leaf.attrs, "name").None? ==> r == t
    ensures r.Keys == t.Keys + (if Attribute(leaf.attrs, "name").Some? then {parent} else {})
    ensures WellFormed(t) ==> WellFormed(r)
  {
    var sig := Attribute(leaf.attrs, "name");
    if parent in t then
      var kinds := match Section(t, parent, what) case Some(ks) => ks case None => map[];
      PutSection(t, parent, what, RecordInSection(kinds, leaf.name, sig))
    else if sig.Some? then
      NewClassEntry(t, parent, what, RecordInSection(map[], leaf.name, sig))
    else
      t
  }

  /** Records the leaves in order. */
  function RecordAll(what: Category, parent: string, leaves: seq<Node>, t: AnalysisTable): (r: AnalysisTable)
    ensures OnlySectionChanged(t, r, parent, what)
    ensures forall k :: Sigs(r, parent, what, k) == AddAllIfAbsent(Sigs(t, parent, what, k), LeafSigs(leaves, k))
    ensures WellFormed(t) ==> WellFormed(r)
    decreases |leaves|
  {
    if leaves == [] then t
    else
      var t' := RecordLeaf(what, parent, leaves[0], t);
      var r := RecordAll(what, parent, leaves[1..], t');
      assert forall k :: Sigs(r, parent, what, k) == AddAllIfAbsent(Sigs(t, parent, what, k), LeafSigs(leaves, k)) by {
        forall k {
          AddAllAppend(Sigs(t, parent, what, k), LeafSig(leaves[0], k), LeafSigs(leaves[1..], k));
        }
      }
      r
  }

  /**
   Some leaf carries a `name` attribute. Only such a leaf can add its class
   to the table: for a class not yet there, the lookup of a missing `name`
   throws before anything is added.
   */
  predicate AnyNamed(leaves: seq<Node>) {
    leaves != [] && (Attribute(leaves[0].attrs, "name").Some? || AnyNamed(leaves[1..]))
  }

  /** Recording the leaves adds the class to the table exactly when some leaf has a `name` attribute. */
  lemma {:induction false} RecordAllKeys(what: Category, parent: string, leaves: seq<Node>, t: AnalysisTable)
    ensures RecordAll(what, parent, leaves, t).Keys == t.Keys + (if AnyNamed(leaves) then {parent} else {})
    decreases |leaves|
  {
    if leaves != [] {
      RecordAllKeys(what, parent, leaves[1..], RecordLeaf(what, parent, leaves[0], t));
    }
  }

  /** The `name` attributes of the leaves of kind `kind` that have one, in order. */
  function LeafSigs(leaves: seq<Node>, kind: string): seq<string> {
    if leaves == [] then [] else LeafSig(leaves[0], kind) + LeafSigs(leaves[1..], kind)
  }

  /**
   The leaves the walk visits, in depth-first order: ignored elements are
   dropped with their subtrees, elements with children are replaced by the
   leaves beneath them.
   */
  function Leaves(nodes: seq<Node>): (r: seq<Node>)
    ensures forall i :: 0 <= i < |r| ==> !Ignored(r[i].name) && r[i].children == []
  {
    if nodes == [] then []
    else
      var c := nodes[0];
      (if Ignored(c.name) then [] else if c.children != [] then Leaves(c.children) else [c])
        + Leaves(nodes[1..])
  }

  /**
   `LookFor`: walks the children of a class element, recursing into any child
   that has children under the same class and category, and recording each
   remaining leaf. It is the same as recording the list `Leaves(nodes)` in
   order, and it touches no other section.
   */
  function LookFor(what: Category, parent: string, nodes: seq<Node>, t: AnalysisTable): (r: AnalysisTable)
    ensures r == RecordAll(what, parent, Leaves(nodes), t)
    ensures OnlySectionChanged(t, r, parent, what)
    ensures r.Keys == t.Keys + (if AnyNamed(Leaves(nodes)) then {parent} else {})
    ensures forall k :: Sigs(r, parent, what, k) == AddAllIfAbsent(Sigs(t, parent, what, k), LeafSigs(Leaves(nodes), k))
    ensures WellFormed(t) ==> WellFormed(r)
  {
    if nodes == [] then t
    else
      var c := nodes[0];
      var t' :=
        if Ignored(c.name) then t
        else if c.children != [] then LookFor(what, parent, c.children, t)
        else RecordLeaf(what, parent, c, t);
      var r := LookFor(what, parent, nodes[1..], t');
      var first := if Ignored(c.name) then [] else if c.children != [] then Leaves(c.children) else [c];
      RecordAllAppend(what, parent, first, Leaves(nodes[1..]), t);
      RecordAllKeys(what, parent, Leaves(nodes), t);
      assert t' == RecordAll(what, parent, first, t) by {
        if !Ignored(c.name) && c.children == [] {
          assert [c][1..] == [];
        }
      }
      r
  }

  /** Recording two lists one after the other is recording their concatenation. */
  lemma {:induction false} RecordAllAppend(what: Category, parent: string, a: seq<Node>, b: seq<Node>, t: AnalysisTable)
    ensures RecordAll(what, parent, a + b, t) == RecordAll(what, parent, b, RecordAll(what, parent, a, t))
    decreases |a|
  {
    if a == [] {
      assert a + b == b;
    } else {
      assert (a + b)[0] == a[0];
      assert (a + b)[1..] == a[1..] + b;
      RecordAllAppend(what, parent, a[1..], b, RecordLeaf(what, parent, a[0], t));
    }
  }

  /** An ignored element contributes nothing, however deep its subtree. */
  lemma IgnoredSubtreeSkipped(what: Category, parent: string, n: Node, rest: seq<Node>, t: AnalysisTable)
    requires Ignored(n.name)
    ensures LookFor(what, parent, [n] + rest, t) == LookFor(what, parent, rest, t)
  {
    assert ([n] + rest)[0] == n;
    assert ([n] + rest)[1..] == rest;
  }

  /** Recording the same leaf again changes nothing: each signature is kept once. */
  lemma RecordLeafIdempotent(what: Category, parent: string, leaf: Node, t: AnalysisTable)
    ensures RecordLeaf(what, parent, leaf, RecordLeaf(what, parent, leaf, t)) == RecordLeaf(what, parent, leaf, t)
  {
    var once := RecordLeaf(what, parent, leaf, t);
    var sig := Attribute(leaf.attrs, "name");
    if parent in t || sig.Some? {
      assert Section(once, parent, what).Some?;
      var kinds := once[parent][what];
      assert kinds == RecordInSection(kinds, leaf.name, sig) by {
        RecordInSectionIdempotent(kinds, leaf.name, sig);
      }
      assert RecordLeaf(what, parent, leaf, once) == PutSection(once, parent, what, kinds);
      MapUpdateSame(once[parent], what);
      MapUpdateSame(once, parent);
    }
  }

  /** Recording a signature already present in its kind list leaves the section as it was. */
  lemma RecordInSectionIdempotent(kinds: KindTable, kind: string, sig: Option<string>)
    requires kind in kinds
    requires sig.Some? ==> sig.value in kinds[kind]
    ensures RecordInSection(kinds, kind, sig) == kinds
  {
    assert kinds[kind := kinds[kind]] == kinds;
  }

  /** A signature recorded twice for the same kind is stored exactly once. */
  lemma DuplicateStoredOnce(what: Category, parent: string, leaf: Node, t: AnalysisTable)
    requires WellFormed(t)
    requires Attribute(leaf.attrs, "name").Some?
    ensures var r := RecordLeaf(what, parent, leaf, RecordLeaf(what, parent, leaf, t));
      var sigs := Sigs(r, parent, what, leaf.name);
      var sig := Attribute(leaf.attrs, "name").value;
      sig in sigs && forall i, j :: 0 <= i < j < |sigs| ==> sigs[i] != sigs[j]
  {
    RecordLeafIdempotent(what, parent, leaf, t);
    var r := RecordLeaf(what, parent, leaf, t);
    assert WellFormed(r);
    var sigs := Sigs(r, parent, what, leaf.name);
    if Section(r, parent, what).Some? && leaf.name in Section(r, parent, what).value {
      assert sigs == r[parent][what][leaf.name];
    }
  }


  // ----- totally new classes (LookTotallyNew) -----

  /** `name` is listed under some kind of the totally-new table. */
  predicate Registered(t: NewTable, name: string) {
    exists k :: k in t && name in t[k]
  }

  /**
   `LookTotallyNew`: appends the class name to the list of the element's
   name, creating the list on first use and without de-duplication. Only
   the totally-new table changes.
   */
  function LookTotallyNew(cls: string, node: Node, p: Parser): (r: Parser)
    ensures r.(newAnalysis := p.newAnalysis) == p
    ensures r.newAnalysis.Keys == p.newAnalysis.Keys + {node.name}
    ensures ListAt(r.newAnalysis, node.name) == ListAt(p.newAnalysis, node.name) + [cls]
    ensures forall k :: k != node.name ==> ListAt(r.newAnalysis, k) == ListAt(p.newAnalysis, k)
    ensures forall x :: Registered(r.newAnalysis, x) <==> Registered(p.newAnalysis, x) || x == cls
  {
    var r := p.(newAnalysis := p.newAnalysis[node.name := ListAt(p.newAnalysis, node.name) + [cls]]);
    assert node.name in r.newAnalysis && cls in r.newAnalysis[node.name];
    r
  }

  // ----- the class scan (ParseClasses) -----

  /** An attribute that puts the current class name in the missing list. */
  predicate MarksMissing(a: (string, string)) {
    (a.0 == "complete_total" && a.1 != "100") || a.0 == "missing"
  }

  /**
   One step of the attribute `switch`: `name` sets the current class name;
   a `complete_total` other than "100" or any `missing` adds the current name
   to the missing list unless present; any `presence` appends it to the extra
   list when the element has children and to the new list otherwise.
   */
  function ScanAttribute(a: (string, string), hasChildren: bool, cls: string, p: Parser): (r: (string, Parser))
    ensures r.0 == (if a.0 == "name" then a.1 else cls)
    ensures r.1.analysis == p.analysis && r.1.newAnalysis == p.newAnalysis
    ensures forall x :: x in r.1.missing <==> x in p.missing || (MarksMissing(a) && x == cls)
    ensures r.1.extra == p.extra + (if hasChildren && IsPresence(a) then [cls] else [])
    ensures r.1.newClasses == p.newClasses + (if !hasChildren && IsPresence(a) then [cls] else [])
  {
    if a.0 == "name" then (a.1, p)
    else if MarksMissing(a) then (cls, p.(missing := AddIfAbsent(p.missing, cls)))
    else if a.0 == "presence" then
      if hasChildren then (cls, p.(extra := p.extra + [cls]))
      else (cls, p.(newClasses := p.newClasses + [cls]))
    else (cls, p)
  }

  /**
   Reads the attributes of one class element in order from class name `cls`.
   The name in force at the end is the value of the last `name` attribute
   (or `cls` if there is none); the lists only grow, and the missing list
   never gets a name twice.
   */
  function ScanAttributes(attrs: seq<(string, string)>, hasChildren: bool, cls: string, p: Parser): (r: (string, Parser))
    ensures r.1.analysis == p.analysis && r.1.newAnalysis == p.newAnalysis
    ensures p.missing <= r.1.missing && p.extra <= r.1.extra && p.newClasses <= r.1.newClasses
    ensures NoDuplicates(p.missing) ==> NoDuplicates(r.1.missing)
    decreases |attrs|
  {
    if attrs == [] then (cls, p)
    else
      var (c, q) := ScanAttribute(attrs[0], hasChildren, cls, p);
      ScanAttributes(attrs[1..], hasChildren, c, q)
  }

  /** The class name in force after the scan is the value of the last `name` attribute, or `cls` if there is none. */
  lemma {:induction false} ScanClassName(attrs: seq<(string, string)>, hasChildren: bool, cls: string, p: Parser)
    ensures var r := ScanAttributes(attrs, hasChildren, cls, p);
      && ((forall i :: 0 <= i < |attrs| ==> attrs[i].0 != "name") ==> r.0 == cls)
      && (forall i :: (0 <= i < |attrs| && attrs[i].0 == "name" &&
                       forall j :: i < j < |attrs| ==> attrs[j].0 != "name") ==> r.0 == attrs[i].1)
    decreases |attrs|
  {
    if attrs != [] {
      var (c, q) := ScanAttribute(attrs[0], hasChildren, cls, p);
      ScanClassName(attrs[1..], hasChildren, c, q);
      assert forall i :: 1 <= i < |attrs| ==> attrs[1..][i - 1] == attrs[i];
    }
  }

  /** Without `name` attributes, the missing list gains `cls` exactly when some attribute marks it missing. */
  lemma {:induction false} ScanUnnamedMissing(attrs: seq<(string, string)>, hasChildren: bool, cls: string, p: Parser)
    requires forall i :: 0 <= i < |attrs| ==> attrs[i].0 != "name"
    ensures forall x :: x in ScanAttributes(attrs, hasChildren, cls, p).1.missing <==>
      x in p.missing || (x == cls && exists i :: 0 <= i < |attrs| && MarksMissing(attrs[i]))
    decreases |attrs|
  {
    if attrs != [] {
      var q := ScanAttribute(attrs[0], hasChildren, cls, p).1;
      ScanUnnamedMissing(attrs[1..], hasChildren, cls, q);
      assert (exists i :: 0 <= i < |attrs| && MarksMissing(attrs[i])) <==>
        MarksMissing(attrs[0]) || exists i :: 0 <= i < |attrs[1..]| && MarksMissing(attrs[1..][i]);
    }
  }

  /** Without `name` attributes, the extra list gains `cls` exactly when the element has children and a `presence` attribute. */
  lemma {:induction false} ScanUnnamedExtra(attrs: seq<(string, string)>, hasChildren: bool, cls: string, p: Parser)
    requires forall i :: 0 <= i < |attrs| ==> attrs[i].0 != "name"
    ensures forall x :: x in ScanAttributes(attrs, hasChildren, cls, p).1.extra <==>
      x in p.extra || (x == cls && hasChildren && exists i :: 0 <= i < |attrs| && attrs[i].0 == "presence")
    decreases |attrs|
  {
    if attrs != [] {
      var q := ScanAttribute(attrs[0], hasChildren, cls, p).1;
      ScanUnnamedExtra(attrs[1..], hasChildren, cls, q);
      assert (exists i :: 0 <= i < |attrs| && attrs[i].0 == "presence") <==>
        attrs[0].0 == "presence" || exists i :: 0 <= i < |attrs[1..]| && attrs[1..][i].0 == "presence";
    }
  }

  /** Without `name` attributes, the new list gains `cls` exactly when the element has no children and a `presence` attribute. */
  lemma {:induction false} ScanUnnamedNew(attrs: seq<(string, string)>, hasChildren: bool, cls: string, p: Parser)
    requires forall i :: 0 <= i < |attrs| ==> attrs[i].0 != "name"
    ensures forall x :: x in ScanAttributes(attrs, hasChildren, cls, p).1.newClasses <==>
      x in p.newClasses || (x == cls && !hasChildren && exists i :: 0 <= i < |attrs| && attrs[i].0 == "presence")
    decreases |attrs|
  {
    if attrs != [] {
      var q := ScanAttribute(attrs[0], hasChildren, cls, p).1;
      ScanUnnamedNew(attrs[1..], hasChildren, cls, q);
      assert (exists i :: 0 <= i < |attrs| && attrs[i].0 == "presence") <==>
        attrs[0].0 == "presence" || exists i :: 0 <= i < |attrs[1..]| && attrs[1..][i].0 == "presence";
    }
  }

  /**
   The class name in force when the attribute at position `i` is read,
   starting from `cls`: the value of the last `name` attribute before `i`,
   or `cls` if there is none (see `NameAtLastName`).
   */
  function NameAt(attrs: seq<(string, string)>, i: nat, cls: string): string
    requires i <= |attrs|
  {
    if i == 0 then cls
    else NameAt(attrs[1..], i - 1, if attrs[0].0 == "name" then attrs[0].1 else cls)
  }

  /** With no `name` attribute before position `i`, the name in force there is still `cls`. */
  lemma {:induction false} NameAtNoName(attrs: seq<(string, string)>, i: nat, cls: string)
    requires i <= |attrs|
    requires forall j :: 0 <= j < i ==> attrs[j].0 != "name"
    ensures NameAt(attrs, i, cls) == cls
  {
    if i > 0 {
      assert forall j :: 0 <= j < i - 1 ==> attrs[1..][j] == attrs[j + 1];
      NameAtNoName(attrs[1..], i - 1, cls);
    }
  }

  /** After a `name` attribute at `j` with no other `name` up to `i`, the name in force at `i` is its value. */
  lemma {:induction false} NameAtLastName(attrs: seq<(string, string)>, i: nat, cls: string, j: nat)
    requires j < i <= |attrs|
    requires attrs[j].0 == "name"
    requires forall m :: j < m < i ==> attrs[m].0 != "name"
    ensures NameAt(attrs, i, cls) == attrs[j].1
    decreases j
  {
    var c := if attrs[0].0 == "name" then attrs[0].1 else cls;
    assert forall m :: 0 <= m < |attrs| - 1 ==> attrs[1..][m] == attrs[m + 1];
    if j == 0 {
      NameAtNoName(attrs[1..], i - 1, c);
    } else {
      NameAtLastName(attrs[1..], i - 1, c, j - 1);
    }
  }

  /**
   The names in force at the attributes that `marks` selects, in order: what
   a `switch` arm appends when it reads such an attribute.
   */
  function MarkedNames(attrs: seq<(string, string)>, cls: string, marks: ((string, string)) -> bool): (r: seq<string>)
    ensures forall x :: x in r <==> exists i :: 0 <= i < |attrs| && marks(attrs[i]) && x == NameAt(attrs, i, cls)
    decreases |attrs|
  {
    if attrs == [] then []
    else
      var c := if attrs[0].0 == "name" then attrs[0].1 else cls;
      var rest := MarkedNames(attrs[1..], c, marks);
      var head := if marks(attrs[0]) then [cls] else [];
      forall x
        ensures (exists i :: 0 <= i < |attrs| && marks(attrs[i]) && x == NameAt(attrs, i, cls)) <==> x in head + rest
      {
        if exists i :: 0 <= i < |attrs| && marks(attrs[i]) && x == NameAt(attrs, i, cls) {
          var i :| 0 <= i < |attrs| && marks(attrs[i]) && x == NameAt(attrs, i, cls);
          if i > 0 {
            assert attrs[1..][i - 1] == attrs[i];
          }
        }
        if x in rest {
          var i :| 0 <= i < |attrs[1..]| && marks(attrs[1..][i]) && x == NameAt(attrs[1..], i, c);
          assert attrs[i + 1] == attrs[1..][i];
        }
      }
      head + rest
  }

  /**
   `MarkedNames` keeps document order and repeats: the names of `a + b` are
   those of `a`, then those of `b` read from the name in force after `a`.
   */
  lemma {:induction false} MarkedNamesAppend(a: seq<(string, string)>, b: seq<(string, string)>, cls: string, marks: ((string, string)) -> bool)
    ensures MarkedNames(a + b, cls, marks) == MarkedNames(a, cls, marks) + MarkedNames(b, NameAt(a, |a|, cls), marks)
    decreases |a|
  {
    if a == [] {
      assert a + b == b;
    } else {
      var c := if a[0].0 == "name" then a[0].1 else cls;
      DropAppend(a, b);
      MarkedNamesCons(a + b, cls, marks);
      MarkedNamesCons(a, cls, marks);
      MarkedNamesAppend(a[1..], b, c, marks);
      AppendAssoc(if marks(a[0]) then [cls] else [], MarkedNames(a[1..], c, marks), MarkedNames(b, NameAt(a, |a|, cls), marks));
    }
  }

  /** A single attribute contributes the name in force exactly when it is marked. */
  lemma MarkedNamesSingle(a: (string, string), cls: string, marks: ((string, string)) -> bool)
    ensures MarkedNames([a], cls, marks) == if marks(a) then [cls] else []
  {
    MarkedNamesCons([a], cls, marks);
    assert [a][1..] == [];
  }

  /** Unfolds `MarkedNames` past the first attribute. */
  lemma MarkedNamesCons(attrs: seq<(string, string)>, cls: string, marks: ((string, string)) -> bool)
    requires attrs != []
    ensures MarkedNames(attrs, cls, marks) ==
      (if marks(attrs[0]) then [cls] else []) +
      MarkedNames(attrs[1..], if attrs[0].0 == "name" then attrs[0].1 else cls, marks)
  {
  }

  /** An attribute read by the `presence` arm. */
  predicate IsPresence(a: (string, string)) {
    a.0 == "presence"
  }

  /**
   The missing list gains exactly the names in force at the attributes that
   mark the class missing (each once, as the list is de-duplicated).
   */
  lemma {:induction false} ScanMissing(attrs: seq<(string, string)>, hasChildren: bool, cls: string, p: Parser)
    ensures forall x :: x in ScanAttributes(attrs, hasChildren, cls, p).1.missing <==>
      x in p.missing || x in MarkedNames(attrs, cls, MarksMissing)
    decreases |attrs|
  {
    if attrs != [] {
      var (c, q) := ScanAttribute(attrs[0], hasChildren, cls, p);
      ScanMissing(attrs[1..], hasChildren, c, q);
      MarkedNamesCons(attrs, cls, MarksMissing);
    }
  }

  /** One step of the scan: the name left in force, and what the `presence` arm appends. */
  lemma ScanStep(attrs: seq<(string, string)>, hasChildren: bool, cls: string, p: Parser)
    requires attrs != []
    ensures var (c, q) := ScanAttribute(attrs[0], hasChildren, cls, p);
      && c == (if attrs[0].0 == "name" then attrs[0].1 else cls)
      && q.extra == p.extra + (if hasChildren && IsPresence(attrs[0]) then [cls] else [])
      && q.newClasses == p.newClasses + (if !hasChildren && IsPresence(attrs[0]) then [cls] else [])
      && ScanAttributes(attrs, hasChildren, cls, p) == ScanAttributes(attrs[1..], hasChildren, c, q)
  {
  }

  /**
   With children, each `presence` appends the name in force to the extra
   list, once per attribute read (the list is not de-duplicated).
   */
  lemma {:induction false} ScanExtra(attrs: seq<(string, string)>, hasChildren: bool, cls: string, p: Parser)
    ensures ScanAttributes(attrs, hasChildren, cls, p).1.extra ==
      p.extra + (if hasChildren then MarkedNames(attrs, cls, IsPresence) else [])
    decreases |attrs|
  {
    if attrs != [] {
      var (c, q) := ScanAttribute(attrs[0], hasChildren, cls, p);
      ScanStep(attrs, hasChildren, cls, p);
      ScanExtra(attrs[1..], hasChildren, c, q);
      MarkedNamesCons(attrs, cls, IsPresence);
      var head := if IsPresence(attrs[0]) then [cls] else [];
      var tail := MarkedNames(attrs[1..], c, IsPresence);
      if hasChildren {
        assert p.extra + head + tail == p.extra + (head + tail);
      }
    }
  }

  /**
   Without children, each `presence` appends the name in force to the new
   list, once per attribute read.
   */
  lemma {:induction false} ScanNew(attrs: seq<(string, string)>, hasChildren: bool, cls: string, p: Parser)
    ensures ScanAttributes(attrs, hasChildren, cls, p).1.newClasses ==
      p.newClasses + (if hasChildren then [] else MarkedNames(attrs, cls, IsPresence))
    decreases |attrs|
  {
    if attrs != [] {
      var (c, q) := ScanAttribute(attrs[0], hasChildren, cls, p);
      ScanStep(attrs, hasChildren, cls, p);
      ScanNew(attrs[1..], hasChildren, c, q);
      MarkedNamesCons(attrs, cls, IsPresence);
      var head := if IsPresence(attrs[0]) then [cls] else [];
      var tail := MarkedNames(attrs[1..], c, IsPresence);
      if !hasChildren {
        assert p.newClasses + head + tail == p.newClasses + (head + tail);
      }
    }
  }

  /**
   For the usual element, whose only `name` attribute comes first, the class
   lands in the missing list exactly when some attribute marks it missing, in
   the extra list exactly when it has children and a `presence` attribute,
   and in the new list exactly when it has no children and a `presence`
   attribute; nothing else is added to any list.
   */
  lemma ScanNamedClass(name: string, rest: seq<(string, string)>, hasChildren: bool, p: Parser)
    requires forall i :: 0 <= i < |rest| ==> rest[i].0 != "name"
    ensures var (cls, q) := ScanAttributes([("name", name)] + rest, hasChildren, "", p);
      && cls == name
      && (forall x :: x in q.missing <==>
            x in p.missing || (x == name && exists i :: 0 <= i < |rest| && MarksMissing(rest[i])))
      && (forall x :: x in q.extra <==>
            x in p.extra || (x == name && hasChildren && exists i :: 0 <= i < |rest| && rest[i].0 == "presence"))
      && (forall x :: x in q.newClasses <==>
            x in p.newClasses || (x == name && !hasChildren && exists i :: 0 <= i < |rest| && rest[i].0 == "presence"))
  {
    var attrs := [("name", name)] + rest;
    assert attrs[0] == ("name", name) && attrs[1..] == rest;
    ScanClassName(rest, hasChildren, name, p);
    ScanUnnamedMissing(rest, hasChildren, name, p);
    ScanUnnamedExtra(rest, hasChildren, name, p);
    ScanUnnamedNew(rest, hasChildren, name, p);
  }

  /** A `missing` attribute read before the `name` attribute registers the empty class name instead. */
  lemma MarkBeforeNameRegistersEmpty(name: string)
    requires name != ""
    ensures var (cls, q) := ScanAttributes([("missing", "1"), ("name", name)], true, "", Initial);
      cls == name && q.missing == [""] && name !in q.missing
  {
    var attrs := [("missing", "1"), ("name", name)];
    var marked := Initial.(missing := [""]);
    assert AddIfAbsent(Initial.missing, "") == [""];
    assert ScanAttribute(attrs[0], true, "", Initial) == ("", marked);
    assert ScanAttribute(attrs[1], true, "", marked) == (name, marked);
    assert attrs[1..][1..] == [];
    assert ScanAttributes(attrs[1..][1..], true, name, marked) == (name, marked);
    assert ScanAttributes(attrs[1..], true, "", marked) == (name, marked);
  }

  // ----- one class element, and the whole report -----

  /** The class list that selects a walk of category `what`. */
  function Listed(p: Parser, what: Category): seq<string> {
    match what
    case Missing => p.missing
    case Extra => p.extra
  }

  /** Every class other than `cls` keeps all its sections. */
  ghost predicate OnlyClassChanged(t: AnalysisTable, r: AnalysisTable, cls: string) {
    forall c, w :: c != cls ==> Section(t, c, w) == Section(r, c, w)
  }

  /**
   Each section of `cls` in `r` is the one in `t` with the leaves of
   `children` recorded when `listed` selects the category, and untouched
   otherwise.
   */
  ghost predicate WalkedAsListed(t: AnalysisTable, r: AnalysisTable, cls: string, q: Parser, children: seq<Node>) {
    forall w, k :: Sigs(r, cls, w, k) == WalkedSigs(t, cls, q, children, w, k)
  }

  /** The signatures of kind `k` in section `w` of `cls` after the walks `q`'s lists select. */
  function WalkedSigs(t: AnalysisTable, cls: string, q: Parser, children: seq<Node>, w: Category, k: string): seq<string> {
    if cls in Listed(q, w) then AddAllIfAbsent(Sigs(t, cls, w, k), LeafSigs(Leaves(children), k)) else Sigs(t, cls, w, k)
  }

  /** Walks the children for category `what` when the class is in that category's list. */
  function WalkCategory(what: Category, cls: string, children: seq<Node>, q: Parser): (r: Parser)
    ensures r.(analysis := q.analysis) == q
    ensures cls !in Listed(q, what) ==> r == q
    ensures r.analysis.Keys == q.analysis.Keys + (if cls in Listed(q, what) && AnyNamed(Leaves(children)) then {cls} else {})
    ensures OnlySectionChanged(q.analysis, r.analysis, cls, what)
    ensures forall k :: Sigs(r.analysis, cls, what, k) == WalkedSigs(q.analysis, cls, q, children, what, k)
    ensures WellFormed(q.analysis) ==> WellFormed(r.analysis)
  {
    if cls in Listed(q, what) then q.(analysis := LookFor(what, cls, children, q.analysis)) else q
  }

  /** The class is in the missing or the extra list, so at least one walk runs. */
  predicate Walked(cls: string, q: Parser) {
    cls in q.missing || cls in q.extra
  }

  /** The two walks add `cls` to the table exactly when one of them runs and reaches a leaf with a `name`. */
  lemma WalkClassKeys(cls: string, children: seq<Node>, q: Parser)
    ensures var r := WalkCategory(Extra, cls, children, WalkCategory(Missing, cls, children, q));
      r.analysis.Keys == q.analysis.Keys + (if Walked(cls, q) && AnyNamed(Leaves(children)) then {cls} else {})
  {
    var q1 := WalkCategory(Missing, cls, children, q);
    assert Listed(q1, Extra) == Listed(q, Extra);
  }

  /** The member walks of a class that is not totally new: missing first, then extra. */
  function WalkClass(cls: string, children: seq<Node>, q: Parser): (r: Parser)
    ensures r.(analysis := q.analysis) == q
    ensures r.analysis.Keys == q.analysis.Keys + (if Walked(cls, q) && AnyNamed(Leaves(children)) then {cls} else {})
    ensures OnlyClassChanged(q.analysis, r.analysis, cls)
    ensures WalkedAsListed(q.analysis, r.analysis, cls, q, children)
    ensures WellFormed(q.analysis) ==> WellFormed(r.analysis)
  {
    WalkClassKeys(cls, children, q);
    WalkClassFrame(cls, children, q);
    WalkClassSigs(cls, children, q);
    WalkCategory(Extra, cls, children, WalkCategory(Missing, cls, children, q))
  }


  /** The two walks leave every other class's sections alone. */
  lemma WalkClassFrame(cls: string, children: seq<Node>, q: Parser)
    ensures var r := WalkCategory(Extra, cls, children, WalkCategory(Missing, cls, children, q));
      OnlyClassChanged(q.analysis, r.analysis, cls)
  {
    var q1 := WalkCategory(Missing, cls, children, q);
    var r := WalkCategory(Extra, cls, children, q1);
    forall c, w | c != cls ensures Section(q.analysis, c, w) == Section(r.analysis, c, w) {
      assert Section(q.analysis, c, w) == Section(q1.analysis, c, w);
    }
  }

  /** Each section of `cls` is walked by the walk of its own category, exactly when listed. */
  lemma WalkClassSigs(cls: string, children: seq<Node>, q: Parser)
    ensures var r := WalkCategory(Extra, cls, children, WalkCategory(Missing, cls, children, q));
      WalkedAsListed(q.analysis, r.analysis, cls, q, children)
  {
    var q1 := WalkCategory(Missing, cls, children, q);
    var r := WalkCategory(Extra, cls, children, q1);
    WalkClassMissingSigs(cls, children, q);
    WalkClassExtraSigs(cls, children, q);
    forall w, k ensures Sigs(r.analysis, cls, w, k) == WalkedSigs(q.analysis, cls, q, children, w, k) {
      if w == Missing {
        assert Sigs(r.analysis, cls, Missing, k) == WalkedSigs(q.analysis, cls, q, children, Missing, k);
      } else {
        assert Sigs(r.analysis, cls, Extra, k) == WalkedSigs(q.analysis, cls, q, children, Extra, k);
      }
    }
  }

  /** The missing section is the one the first walk leaves; the extra walk does not touch it. */
  lemma WalkClassMissingSigs(cls: string, children: seq<Node>, q: Parser)
    ensures var r := WalkCategory(Extra, cls, children, WalkCategory(Missing, cls, children, q));
      forall k :: Sigs(r.analysis, cls, Missing, k) == WalkedSigs(q.analysis, cls, q, children, Missing, k)
  {
    var q1 := WalkCategory(Missing, cls, children, q);
    var r := WalkCategory(Extra, cls, children, q1);
    assert Section(r.analysis, cls, Missing) == Section(q1.analysis, cls, Missing);
  }

  /** The extra section is walked from the one the missing walk left untouched. */
  lemma WalkClassExtraSigs(cls: string, children: seq<Node>, q: Parser)
    ensures var r := WalkCategory(Extra, cls, children, WalkCategory(Missing, cls, children, q));
      forall k :: Sigs(r.analysis, cls, Extra, k) == WalkedSigs(q.analysis, cls, q, children, Extra, k)
  {
    var q1 := WalkCategory(Missing, cls, children, q);
    assert Listed(q1, Extra) == Listed(q, Extra);
    assert Section(q1.analysis, cls, Extra) == Section(q.analysis, cls, Extra);
  }




  /**
   One iteration of `ParseClasses`. After the attribute scan, a class in the
   new list is only registered as totally new and never walked, whatever the
   other lists say; otherwise it is walked once for each of the missing and
   extra lists it is in, and only its own sections change.
   */
  function ParseClass(node: Node, p: Parser): (r: Parser)
    ensures var (cls, q) := ScanAttributes(node.attrs, node.children != [], "", p);
      && r.missing == q.missing && r.extra == q.extra && r.newClasses == q.newClasses
      && (cls in q.newClasses ==>
            && r.analysis == p.analysis
            && r.newAnalysis.Keys == p.newAnalysis.Keys + {node.name}
            && ListAt(r.newAnalysis, node.name) == ListAt(p.newAnalysis, node.name) + [cls]
            && (forall k :: k != node.name ==> ListAt(r.newAnalysis, k) == ListAt(p.newAnalysis, k))
            && Registered(r.newAnalysis, cls))
      && (cls !in q.newClasses ==>
            && r.newAnalysis == p.newAnalysis
            && r.analysis.Keys == p.analysis.Keys + (if Walked(cls, q) && AnyNamed(Leaves(node.children)) then {cls} else {})
            && OnlyClassChanged(p.analysis, r.analysis, cls)
            && WalkedAsListed(p.analysis, r.analysis, cls, q, node.children))
    ensures forall x :: Registered(p.newAnalysis, x) ==> Registered(r.newAnalysis, x)
    ensures WellFormed(p.analysis) ==> WellFormed(r.analysis)
    ensures NoDuplicates(p.missing) ==> NoDuplicates(r.missing)
  {
    var (cls, q) := ScanAttributes(node.attrs, node.children != [], "", p);
    if cls in q.newClasses then LookTotallyNew(cls, node, q) else WalkClass(cls, node.children, q)
  }

  /** `ParseClasses`: the class elements in document order, threading the parser's fields. */
  function ParseClasses(classes: seq<Node>, p: Parser): (r: Parser)
    ensures forall x :: Registered(p.newAnalysis, x) ==> Registered(r.newAnalysis, x)
    ensures WellFormed(p.analysis) ==> WellFormed(r.analysis)
    ensures NoDuplicates(p.missing) ==> NoDuplicates(r.missing)
    decreases |classes|
  {
    if classes == [] then p else ParseClasses(classes[1..], ParseClass(classes[0], p))
  }

  /** Parsing `a + b` parses the elements of `a`, then those of `b` from where `a` left the parser. */
  lemma {:induction false} ParseClassesAppend(a: seq<Node>, b: seq<Node>, p: Parser)
    ensures ParseClasses(a + b, p) == ParseClasses(b, ParseClasses(a, p))
    decreases |a|
  {
    if a == [] {
      assert a + b == b;
    } else {
      DropAppend(a, b);
      ParseClassesAppend(a[1..], b, ParseClass(a[0], p));
    }
  }

  /** A single class element is handled by `ParseClass` alone. */
  lemma ParseClassesSingle(c: Node, p: Parser)
    ensures ParseClasses([c], p) == ParseClass(c, p)
  {
    assert [c][1..] == [];
  }

  /**
   `MakeAnalysis` starts from the empty collections and hands each class
   element of the report to `ParseClass`, in document order.
   */
  lemma MakeAnalysisInDocumentOrder(p: Parser, classes: seq<Node>, c: Node)
    ensures MakeAnalysis(p, []) == Initial
    ensures MakeAnalysis(p, classes + [c]) == ParseClass(c, MakeAnalysis(p, classes))
  {
    ParseClassesAppend(classes, [c], Initial);
    ParseClassesSingle(c, MakeAnalysis(p, classes));
  }

  /**
   `MakeAnalysis`: resets the five collections and parses the report. Both
   tables it leaves are well formed, and no class is listed twice as missing.
   */
  function MakeAnalysis(p: Parser, classes: seq<Node>): (r: Parser)
    ensures WellFormed(r.analysis)
    ensures NoDuplicates(r.missing)
  {
    ParseClasses(classes, Initial)
  }

  /** The result depends on the report alone, not on what an earlier run left in the parser. */
  lemma MakeAnalysisIgnoresEarlierRuns(p: Parser, q: Parser, classes: seq<Node>)
    ensures MakeAnalysis(p, classes) == MakeAnalysis(q, classes)
  {
  }
}
