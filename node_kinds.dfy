/**
 * The pure rules of the browser's node tree: which entity each kind of node shows, the
 * child list each node's constructor builds, its label, and what its detail-text provider
 * (`InternalGetSpecialText`) computes. One datatype stands for the subclasses of ListNode.
 */
module NodeKinds {
  import opened Wrappers
  import opened CilMetadata
  import opened NamespaceGrouping

  /** The subclasses of ListNode, each with the metadata it wraps. */
  datatype NodeKind =
    | AssemblyNode(assembly: Assembly)
    | AssemblyReferencesNode(references: seq<AssemblyReference>)
    | AssemblyReferenceNode(reference: AssemblyReference)
    | NamespaceNode(name: Option<string>, types: seq<TypeDefinition>)
    | TypeDefinitionNode(typeDef: TypeDefinition)
    | FieldNode(field: FieldDefinition)
    | MethodNode(methodDef: MethodDefinition)
    | PropertyNode(property: PropertyDefinition)

  /** How deep below a node its subtree can reach; construction recurses on it. */
  function Level(k: NodeKind): nat
  {
    match k
    case AssemblyNode(_) => 4
    case NamespaceNode(_, _) => 3
    case TypeDefinitionNode(_) => 2
    case AssemblyReferencesNode(_) => 1
    case PropertyNode(_) => 1
    case _ => 0
  }

  // ---- prefixes of method names ----

  predicate StartsWith(s: string, prefix: string)
  {
    |prefix| <= |s| && s[..|prefix|] == prefix
  }

  /** Names of property accessors, which the type node does not list as methods. */
  predicate IsAccessorName(name: string)
  {
    StartsWith(name, "get_") || StartsWith(name, "set_")
  }

  /** The methods a type node lists: those whose name starts with neither `get_` nor `set_`. */
  function KeptMethods(ms: seq<MethodDefinition>): seq<MethodDefinition>
  {
    if ms == [] then []
    else (if IsAccessorName(ms[0].name) then [] else [ms[0]]) + KeptMethods(ms[1..])
  }

  lemma {:induction false} KeptMethodsMembers(ms: seq<MethodDefinition>, m: MethodDefinition)
    ensures m in KeptMethods(ms) <==> m in ms && !IsAccessorName(m.name)
  {
    if ms != [] {
      KeptMethodsMembers(ms[1..], m);
      assert ms == [ms[0]] + ms[1..];
    }
  }

  /** Filtering keeps the metadata order: it distributes over concatenation. */
  lemma {:induction false} KeptMethodsAppend(a: seq<MethodDefinition>, b: seq<MethodDefinition>)
    ensures KeptMethods(a + b) == KeptMethods(a) + KeptMethods(b)
  {
    if a == [] {
      assert a + b == b;
    } else {
      assert (a + b)[0] == a[0];
      assert (a + b)[1..] == a[1..] + b;
      KeptMethodsAppend(a[1..], b);
    }
  }

  /** Nothing is dropped exactly when no method carries an accessor name. */
  lemma {:induction false} KeptMethodsAll(ms: seq<MethodDefinition>)
    ensures |KeptMethods(ms)| <= |ms|
    ensures KeptMethods(ms) == ms <==> forall i :: 0 <= i < |ms| ==> !IsAccessorName(ms[i].name)
  {
    if ms != [] {
      KeptMethodsAll(ms[1..]);
      assert forall i :: 1 <= i < |ms| ==> ms[i] == ms[1..][i - 1];
      if IsAccessorName(ms[0].name) {
        assert |KeptMethods(ms)| < |ms|;
      }
    }
  }

  // ---- child lists ----

  function FieldNodes(fs: seq<FieldDefinition>): seq<NodeKind>
  {
    seq(|fs|, i requires 0 <= i < |fs| => FieldNode(fs[i]))
  }

  function PropertyNodes(ps: seq<PropertyDefinition>): seq<NodeKind>
  {
    seq(|ps|, i requires 0 <= i < |ps| => PropertyNode(ps[i]))
  }

  function MethodNodes(ms: seq<MethodDefinition>): seq<NodeKind>
  {
    seq(|ms|, i requires 0 <= i < |ms| => MethodNode(ms[i]))
  }

  function TypeDefinitionNodes(ts: seq<TypeDefinition>): seq<NodeKind>
  {
    seq(|ts|, i requires 0 <= i < |ts| => TypeDefinitionNode(ts[i]))
  }

  function ReferenceNodes(rs: seq<AssemblyReference>): seq<NodeKind>
  {
    seq(|rs|, i requires 0 <= i < |rs| => AssemblyReferenceNode(rs[i]))
  }

  function NamespaceNodes(gs: seq<Grouping>): seq<NodeKind>
  {
    seq(|gs|, i requires 0 <= i < |gs| => NamespaceNode(gs[i].key, gs[i].types))
  }

  /** Assembly node: the references node, then one namespace node per grouping. */
  function AssemblyChildren(a: Assembly): seq<NodeKind>
  {
    [AssemblyReferencesNode(a.references)] + NamespaceNodes(GroupByNamespace(a.types))
  }

  /** Type node: its fields, then its properties, then its non-accessor methods. */
  function TypeChildren(td: TypeDefinition): seq<NodeKind>
  {
    FieldNodes(td.fields) + PropertyNodes(td.properties) + MethodNodes(KeptMethods(td.methods))
  }

  /** Property node: the getter if present, then the setter if present. */
  function PropertyChildren(p: PropertyDefinition): seq<NodeKind>
  {
    (if p.HasGetter() then [MethodNode(p.getter.value)] else [])
    + (if p.HasSetter() then [MethodNode(p.setter.value)] else [])
  }

  /** The child list a node of kind `k` is constructed with. */
  function ChildKinds(k: NodeKind): (r: seq<NodeKind>)
    ensures forall i :: 0 <= i < |r| ==> Level(r[i]) < Level(k)
  {
    match k
    case AssemblyNode(a) => AssemblyChildren(a)
    case AssemblyReferencesNode(rs) => ReferenceNodes(rs)
    case NamespaceNode(_, ts) => TypeDefinitionNodes(ts)
    case TypeDefinitionNode(td) => TypeChildren(td)
    case PropertyNode(p) => PropertyChildren(p)
    case AssemblyReferenceNode(_) => []
    case FieldNode(_) => []
    case MethodNode(_) => []
  }

  /** A type node's children, position by position. */
  lemma TypeChildrenLayout(td: TypeDefinition)
    ensures var cs, nf, np := TypeChildren(td), |td.fields|, |td.properties|;
      var kept := KeptMethods(td.methods);
      && |cs| == nf + np + |kept|
      && (forall i :: 0 <= i < nf ==> cs[i] == FieldNode(td.fields[i]))
      && (forall i :: 0 <= i < np ==> cs[nf + i] == PropertyNode(td.properties[i]))
      && (forall i :: 0 <= i < |kept| ==> cs[nf + np + i] == MethodNode(kept[i]))
  {
  }

  /** The method children of a type node are exactly its methods without accessor names. */
  lemma TypeChildrenMethods(td: TypeDefinition, m: MethodDefinition)
    ensures MethodNode(m) in TypeChildren(td) <==> m in td.methods && !IsAccessorName(m.name)
  {
    KeptMethodsMembers(td.methods, m);
    var cs := TypeChildren(td);
    var kept := KeptMethods(td.methods);
    if MethodNode(m) in cs {
      var i :| 0 <= i < |cs| && cs[i] == MethodNode(m);
      assert i >= |td.fields| + |td.properties|;
      assert kept[i - |td.fields| - |td.properties|] == m;
    }
    if m in kept {
      var i :| 0 <= i < |kept| && kept[i] == m;
      assert cs[|td.fields| + |td.properties| + i] == MethodNode(m);
    }
  }

  /** A property node lists its getter iff it has one, its setter iff it has one, getter first. */
  lemma PropertyChildrenSpec(p: PropertyDefinition)
    ensures var cs := PropertyChildren(p);
      && |cs| == (if p.HasGetter() then 1 else 0) + (if p.HasSetter() then 1 else 0)
      && (p.HasGetter() ==> cs[0] == MethodNode(p.getter.value))
      && (p.HasSetter() ==> cs[|cs| - 1] == MethodNode(p.setter.value))
      && (forall c :: c in cs ==>
            (c.MethodNode?
             && ((p.HasGetter() && c.methodDef == p.getter.value)
                 || (p.HasSetter() && c.methodDef == p.setter.value))))
  {
  }

  /**
   * An assembly node's first child is its references node; the others are one namespace
   * node per distinct namespace; each type definition of the assembly sits in exactly one of
   * them, and they hold its type definitions without loss or duplication.
   */
  lemma AssemblyChildrenSpec(a: Assembly)
    ensures var cs, gs := AssemblyChildren(a), GroupByNamespace(a.types);
      && |cs| == 1 + |gs|
      && cs[0] == AssemblyReferencesNode(a.references)
      && (forall j :: 1 <= j < |cs| ==> cs[j] == NamespaceNode(gs[j - 1].key, gs[j - 1].types))
      && (forall j :: 1 <= j < |cs| ==> cs[j].NamespaceNode? && cs[j].types != [])
      && (forall j, l :: 1 <= j < l < |cs| ==> cs[j].name != cs[l].name)
      && (forall i :: 0 <= i < |a.types| ==>
            exists j :: 1 <= j < |cs| && a.types[i] in cs[j].types
                        && a.types[i].namespaceName == cs[j].name)
      && multiset(Flatten(gs)) == multiset(a.types)
  {
    var cs, gs := AssemblyChildren(a), GroupByNamespace(a.types);
    GroupByNamespaceGroups(a.types);
    GroupByNamespacePermutation(a.types);
    forall i | 0 <= i < |a.types|
      ensures exists j :: 1 <= j < |cs| && a.types[i] in cs[j].types
                          && a.types[i].namespaceName == cs[j].name
    {
      GroupByNamespaceCovers(a.types, i);
      var j :| 0 <= j < |gs| && a.types[i] in gs[j].types;
      assert cs[j + 1] == NamespaceNode(gs[j].key, gs[j].types);
    }
  }

  /** One type definition never sits in two namespace children of its assembly. */
  lemma AssemblyChildrenUnique(a: Assembly, i: nat, j: nat, l: nat)
    requires i < |a.types|
    requires 1 <= j < |AssemblyChildren(a)| && 1 <= l < |AssemblyChildren(a)|
    requires a.types[i] in AssemblyChildren(a)[j].types && a.types[i] in AssemblyChildren(a)[l].types
    ensures j == l
  {
    var gs := GroupByNamespace(a.types);
    GroupByNamespaceCovers(a.types, i);
    assert AssemblyChildren(a)[j] == NamespaceNode(gs[j - 1].key, gs[j - 1].types);
    assert AssemblyChildren(a)[l] == NamespaceNode(gs[l - 1].key, gs[l - 1].types);
  }

  // ---- labels ----

  /** `Name { get; set; }`, listing only the accessors the property has. */
  function PropertyLabel(p: PropertyDefinition): string
  {
    p.name + " { " + (if p.HasGetter() then "get; " else "") + (if p.HasSetter() then "set; " else "") + "}"
  }

  /** Reads the accessor flags back from a property label. */
  function ParseAccessors(shown: string, name: string): Option<(bool, bool)>
  {
    var head := name + " { ";
    if !StartsWith(shown, head) then None
    else
      var rest := shown[|head|..];
      if rest == "}" then Some((false, false))
      else if rest == "get; }" then Some((true, false))
      else if rest == "set; }" then Some((false, true))
      else if rest == "get; set; }" then Some((true, true))
      else None
  }

  /** A property label determines which accessors the property has. */
  lemma PropertyLabelRoundTrip(p: PropertyDefinition)
    ensures ParseAccessors(PropertyLabel(p), p.name) == Some((p.HasGetter(), p.HasSetter()))
  {
    var head := p.name + " { ";
    var tail := (if p.HasGetter() then "get; " else "") + (if p.HasSetter() then "set; " else "") + "}";
    assert PropertyLabel(p) == head + tail;
    assert (head + tail)[..|head|] == head;
    assert (head + tail)[|head|..] == tail;
  }

  function NameOrEmpty(name: Option<string>): string
  {
    if name.Some? then name.value else ""
  }

  /** The position of the last `c` in `s`, if any. */
  function LastIndexOf(s: string, c: char): (r: Option<nat>)
    ensures r.Some? ==> r.value < |s| && s[r.value] == c
    ensures r.None? ==> c !in s
  {
    if s == [] then None
    else if s[|s| - 1] == c then Some(|s| - 1)
    else LastIndexOf(s[..|s| - 1], c)
  }

  /** The position of the first `c` in `s`, if any. */
  function IndexOf(s: string, c: char): (r: Option<nat>)
    ensures r.Some? ==> r.value < |s| && s[r.value] == c && c !in s[..r.value]
    ensures r.None? ==> c !in s
  {
    if s == [] then None
    else if s[0] == c then Some(0)
    else match IndexOf(s[1..], c)
      case Some(i) => Some(i + 1)
      case None => None
  }

  lemma {:induction false} LastIndexOfAt(p: string, c: char, q: string)
    requires c !in q
    ensures LastIndexOf(p + [c] + q, c) == Some(|p|)
    decreases |q|
  {
    if q == [] {
      assert (p + [c] + q)[|p + [c] + q| - 1] == c;
    } else {
      var s := p + [c] + q;
      assert s[|s| - 1] == q[|q| - 1];
      assert s[..|s| - 1] == p + [c] + q[..|q| - 1];
      LastIndexOfAt(p, c, q[..|q| - 1]);
    }
  }

  lemma {:induction false} IndexOfAt(p: string, c: char, q: string)
    requires c !in p
    ensures IndexOf(p + [c] + q, c) == Some(|p|)
  {
    if p != [] {
      var s := p + [c] + q;
      assert s[0] == p[0];
      assert s[1..] == p[1..] + [c] + q;
      IndexOfAt(p[1..], c, q);
    }
  }

  /**
   * Splits `name [detail]` at its last `[` into name and detail; the inverse of the
   * labels of assembly and assembly-reference nodes.
   */
  function SplitBracketed(s: string): Option<(string, string)>
  {
    match LastIndexOf(s, '[')
    case None => None
    case Some(i) =>
      if 1 <= i && s[i - 1] == ' ' && i + 2 <= |s| && s[|s| - 1] == ']'
      then Some((s[..i - 1], s[i + 1..|s| - 1]))
      else None
  }

  /** Splits `name(signature)` at its first `(`; the inverse of method labels. */
  function SplitCall(s: string): Option<(string, string)>
  {
    match IndexOf(s, '(')
    case None => None
    case Some(i) =>
      if i + 2 <= |s| && s[|s| - 1] == ')' then Some((s[..i], s[i + 1..|s| - 1])) else None
  }

  /** A bracketed label gives back its name and detail when the detail has no `[`. */
  lemma BracketedRoundTrip(name: string, detail: string)
    ensures '[' !in detail ==> SplitBracketed(name + " [" + detail + "]") == Some((name, detail))
  {
    if '[' !in detail {
      var s := name + " [" + detail + "]";
      assert s == (name + " ") + ['['] + (detail + "]");
      LastIndexOfAt(name + " ", '[', detail + "]");
      assert s[..|name|] == name;
      assert s[|name| + 2..|s| - 1] == detail;
    }
  }

  /** A method label gives back its name and signature when the name has no `(`. */
  lemma CallRoundTrip(name: string, signature: string)
    ensures '(' !in name ==> SplitCall(name + "(" + signature + ")") == Some((name, signature))
  {
    if '(' !in name {
      var s := name + "(" + signature + ")";
      assert s == name + ['('] + (signature + ")");
      IndexOfAt(name, '(', signature + ")");
      assert s[..|name|] == name;
      assert s[|name| + 1..|s| - 1] == signature;
    }
  }

  /**
   * The text each node shows in the tree. Each label gives back what it was made from:
   * name and version of an assembly or reference, name and signature of a method, the
   * accessor flags of a property, the name of a namespace, type or field.
   */
  function Label(k: NodeKind): (r: string)
    ensures k.AssemblyNode? && '[' !in k.assembly.version ==>
      SplitBracketed(r) == Some((k.assembly.name, k.assembly.version))
    ensures k.AssemblyReferenceNode? && '[' !in k.reference.formattedVersion ==>
      SplitBracketed(r) == Some((k.reference.name, k.reference.formattedVersion))
    ensures k.MethodNode? && '(' !in k.methodDef.name ==>
      SplitCall(r) == Some((k.methodDef.name, k.methodDef.decodedSignature))
    ensures k.PropertyNode? ==>
      ParseAccessors(r, k.property.name) == Some((k.property.HasGetter(), k.property.HasSetter()))
    ensures k.NamespaceNode? ==> |r| >= 3 && r[..3] == "{} " && r[3..] == NameOrEmpty(k.name)
    ensures k.TypeDefinitionNode? ==> r == k.typeDef.name
    ensures k.FieldNode? ==> r == k.field.name
    ensures k.AssemblyReferencesNode? ==> r == "References"
  {
    match k
    case AssemblyNode(a) =>
      BracketedRoundTrip(a.name, a.version);
      a.name + " [" + a.version + "]"
    case AssemblyReferencesNode(_) => "References"
    case AssemblyReferenceNode(rf) =>
      BracketedRoundTrip(rf.name, rf.formattedVersion);
      rf.name + " [" + rf.formattedVersion + "]"
    case NamespaceNode(name, _) => "{} " + NameOrEmpty(name)
    case TypeDefinitionNode(td) => td.name
    case FieldNode(f) => f.name
    case MethodNode(m) =>
      CallRoundTrip(m.name, m.decodedSignature);
      m.name + "(" + m.decodedSignature + ")"
    case PropertyNode(p) =>
      PropertyLabelRoundTrip(p);
      PropertyLabel(p)
  }

  /** The metadata name an entity node is labelled with first, if it has one. */
  function EntityName(k: NodeKind): Option<string>
  {
    match k
    case AssemblyNode(a) => Some(a.name)
    case AssemblyReferenceNode(r) => Some(r.name)
    case TypeDefinitionNode(td) => Some(td.name)
    case FieldNode(f) => Some(f.name)
    case MethodNode(m) => Some(m.name)
    case PropertyNode(p) => Some(p.name)
    case _ => None
  }

  /**
   * Every entity node's label begins with the entity's name; a namespace label is "{} "
   * followed by the namespace name (nothing for a null namespace).
   */
  lemma LabelStartsWithName(k: NodeKind)
    ensures EntityName(k).Some? ==> StartsWith(Label(k), EntityName(k).value)
    ensures k.NamespaceNode? ==> Label(k)[..3] == "{} " && Label(k)[3..] == NameOrEmpty(k.name)
    ensures k.AssemblyReferencesNode? ==> Label(k) == "References"
  {
  }

  // ---- detail text ----

  /**
   * Char.IsWhiteSpace: the Unicode space separators, line and paragraph separators,
   * U+0009..U+000D, U+0085 and U+00A0.
   */
  predicate IsWhiteSpace(c: char)
  {
    var n := c as int;
    (0x09 <= n <= 0x0D) || n == 0x20 || n == 0x85 || n == 0xA0 || n == 0x1680
    || (0x2000 <= n <= 0x200A) || n == 0x2028 || n == 0x2029 || n == 0x202F
    || n == 0x205F || n == 0x3000
  }

  /** string.IsNullOrWhiteSpace. */
  predicate IsNullOrWhiteSpace(s: Option<string>)
  {
    s.None? || forall i :: 0 <= i < |s.value| ==> IsWhiteSpace(s.value[i])
  }

  /** A namespace node's detail text. */
  function NamespaceText(name: Option<string>): (r: string)
    ensures r == "Global Namespace" <==> IsNullOrWhiteSpace(name)
    ensures !IsNullOrWhiteSpace(name) ==>
      |r| == 10 + |name.value| && r[..10] == "Namespace " && r[10..] == name.value
  {
    if IsNullOrWhiteSpace(name) then "Global Namespace"
    else
      var r := "Namespace " + name.value;
      assert r[0] != "Global Namespace"[0];
      r
  }

  /** Environment.NewLine, fixed to a line feed. */
  const NewLine: string := "\n"

  /** What an override of `InternalGetSpecialText` may produce: a string, an exception, or null. */
  datatype ProviderOutcome = Ok(text: string) | Err(exceptionText: string) | Null

  function FromCil(t: CilText): ProviderOutcome
  {
    match t
    case Printed(s) => Ok(s)
    case Thrown(e) => Err(e)
  }

  /** string.Join(NewLine, ...) over the references' printed texts; the first exception escapes. */
  function ReferencesText(rs: seq<AssemblyReference>, cil: CilElement -> CilText): ProviderOutcome
  {
    if rs == [] then Ok("")
    else
      match cil(ReferenceElement(rs[0]))
      case Thrown(e) => Err(e)
      case Printed(s) =>
        if |rs| == 1 then Ok(s)
        else
          match ReferencesText(rs[1..], cil)
          case Ok(rest) => Ok(s + NewLine + rest)
          case other => other
  }

  /** Separated concatenation: the reference definition of string.Join. */
  function Join(sep: string, parts: seq<string>): string
  {
    if parts == [] then ""
    else if |parts| == 1 then parts[0]
    else parts[0] + sep + Join(sep, parts[1..])
  }

  /**
   * The references text is never null; it succeeds exactly when every reference prints,
   * and then it is the printed texts joined by newlines; otherwise it is the exception of
   * the first reference that fails.
   */
  lemma {:induction false} ReferencesTextSpec(rs: seq<AssemblyReference>, cil: CilElement -> CilText)
    ensures ReferencesText(rs, cil) != Null
    ensures ReferencesText(rs, cil).Ok?
      <==> forall i :: 0 <= i < |rs| ==> cil(ReferenceElement(rs[i])).Printed?
    ensures ReferencesText(rs, cil).Ok? ==>
      ReferencesText(rs, cil).text
        == Join(NewLine, seq(|rs|, i requires 0 <= i < |rs| => cil(ReferenceElement(rs[i])).text))
    ensures ReferencesText(rs, cil).Err? ==>
      exists i :: 0 <= i < |rs| && cil(ReferenceElement(rs[i])) == Thrown(ReferencesText(rs, cil).exceptionText)
        && forall j :: 0 <= j < i ==> cil(ReferenceElement(rs[j])).Printed?
  {
    if rs != [] && cil(ReferenceElement(rs[0])).Printed? && |rs| > 1 {
      var tail := rs[1..];
      ReferencesTextSpec(tail, cil);
      assert forall i :: 1 <= i < |rs| ==> rs[i] == tail[i - 1];
      if ReferencesText(rs, cil).Ok? {
        var texts := seq(|rs|, i requires 0 <= i < |rs| => cil(ReferenceElement(rs[i])).text);
        var tailTexts := seq(|tail|, i requires 0 <= i < |tail| => cil(ReferenceElement(tail[i])).text);
        assert texts[1..] == tailTexts;
      }
      if ReferencesText(rs, cil).Err? {
        var e := ReferencesText(rs, cil).exceptionText;
        var i :| 0 <= i < |tail| && cil(ReferenceElement(tail[i])) == Thrown(e)
          && forall j :: 0 <= j < i ==> cil(ReferenceElement(tail[j])).Printed?;
        assert cil(ReferenceElement(rs[i + 1])) == Thrown(e);
        assert forall j :: 0 <= j < i + 1 ==> cil(ReferenceElement(rs[j])).Printed? by {
          forall j | 0 <= j < i + 1 ensures cil(ReferenceElement(rs[j])).Printed? {
            if j > 0 { assert rs[j] == tail[j - 1]; }
          }
        }
      }
    }
  }

  /** The metadata elements a node's detail text is printed from, in printing order. */
  function CilSources(k: NodeKind): seq<CilElement>
  {
    match k
    case AssemblyNode(a) => [AssemblyElement(a)]
    case AssemblyReferencesNode(rs) => seq(|rs|, i requires 0 <= i < |rs| => ReferenceElement(rs[i]))
    case AssemblyReferenceNode(r) => [ReferenceElement(r)]
    case NamespaceNode(_, _) => []
    case TypeDefinitionNode(td) => [TypeElement(td)]
    case FieldNode(f) => [FieldElement(f)]
    case MethodNode(m) => [MethodElement(m)]
    case PropertyNode(p) => [PropertyElement(p)]
  }

  /**
   * The node's own `InternalGetSpecialText`; the CIL printer is the oracle `cil`. It never
   * yields null; it fails exactly when printing one of its sources fails, with the exception
   * of the first that does; a node printed from one element shows that element's text;
   * a namespace node never fails.
   */
  function InternalGetSpecialText(k: NodeKind, cil: CilElement -> CilText): (r: ProviderOutcome)
    ensures r != Null
    ensures r.Err? <==> exists i :: 0 <= i < |CilSources(k)| && cil(CilSources(k)[i]).Thrown?
    ensures r.Err? ==>
      exists i :: 0 <= i < |CilSources(k)| && cil(CilSources(k)[i]) == Thrown(r.exceptionText)
        && forall j :: 0 <= j < i ==> cil(CilSources(k)[j]).Printed?
    ensures r.Ok? && |CilSources(k)| == 1 ==> r.text == cil(CilSources(k)[0]).text
    ensures k.NamespaceNode? ==> r == Ok(NamespaceText(k.name))
  {
    match k
    case AssemblyNode(a) => assert CilSources(k)[0] == AssemblyElement(a); FromCil(cil(AssemblyElement(a)))
    case AssemblyReferencesNode(rs) =>
      ReferencesTextSpec(rs, cil);
      assert |CilSources(k)| == |rs| && forall i :: 0 <= i < |rs| ==> CilSources(k)[i] == ReferenceElement(rs[i]);
      ReferencesText(rs, cil)
    case AssemblyReferenceNode(r) => assert CilSources(k)[0] == ReferenceElement(r); FromCil(cil(ReferenceElement(r)))
    case NamespaceNode(name, _) => Ok(NamespaceText(name))
    case TypeDefinitionNode(td) => assert CilSources(k)[0] == TypeElement(td); FromCil(cil(TypeElement(td)))
    case FieldNode(f) => assert CilSources(k)[0] == FieldElement(f); FromCil(cil(FieldElement(f)))
    case MethodNode(m) => assert CilSources(k)[0] == MethodElement(m); FromCil(cil(MethodElement(m)))
    case PropertyNode(p) => assert CilSources(k)[0] == PropertyElement(p); FromCil(cil(PropertyElement(p)))
  }

  // ---- the write-once cache ----

  /**
   * The detail-text cache after one GetNodeSpecialText: a filled cache stays as it is;
   * an empty one takes the provider's string or exception text, and stays empty on null.
   */
  function Memoized(cache: Option<string>, outcome: ProviderOutcome): Option<string>
  {
    if cache.Some? then cache
    else
      match outcome
      case Ok(s) => Some(s)
      case Err(e) => Some(e)
      case Null => None
  }

  /** Once the cache holds a string, no later outcome changes it. */
  lemma MemoizedStable(cache: Option<string>, o1: ProviderOutcome, o2: ProviderOutcome)
    requires Memoized(cache, o1).Some?
    ensures Memoized(Memoized(cache, o1), o2) == Memoized(cache, o1)
  {
  }

  /** An empty cache is filled by every outcome except null; exceptions are cached like strings. */
  lemma MemoizedFills(outcome: ProviderOutcome)
    ensures Memoized(None, outcome).None? <==> outcome.Null?
    ensures outcome.Err? ==> Memoized(None, outcome) == Some(outcome.exceptionText)
    ensures outcome.Ok? ==> Memoized(None, outcome) == Some(outcome.text)
  {
  }
}
