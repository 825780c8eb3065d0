/**
  ABI type-name synthesis.

  Two names are derived from a type definition read from metadata:
  - the CLR display name `Namespace.Name`, verbatim;
  - the mangled name, a flat identifier used to name generated ABI
    artefacts, in which the characters the mangling scheme uses as
    structure (`.`, `_` and the generic-arity backtick) are escaped.

  Mangling has two contexts: a name mangled as a top-level symbol
  (standalone) and a name mangled while it is embedded in another mangled
  name as a generic argument (nested). The nested context uses longer
  escape sequences.
 */
module TypeNames {

  /** The category of a type definition. */
  datatype Category = Interface | Class | Enum | Struct | Delegate

  /** The escaping context: the source's `IsGenericParam` template flag,
      `false` for Standalone and `true` for Nested. */
  datatype Ctx = Standalone | Nested

  /** The parts of a metadata type definition that name synthesis reads:
      its namespace, its bare name (which may end in a backtick and the
      generic arity, as in "Map`2"), its number of generic parameters and
      its category. */
  datatype TypeDef = TypeDef(ns: string, name: string, genericCount: nat, category: Category)

  /** The marker that stands in for the namespace of a generic type. */
  const GenericMarker: string := "__F"

  // ---------------------------------------------------------------------
  // Display name
  // ---------------------------------------------------------------------

  /** The CLR display name: the namespace, a dot, the name, with no
      escaping. */
  function ClrName(t: TypeDef): (r: string)
    ensures |r| == |t.ns| + |t.name| + 1
    ensures r[..|t.ns|] == t.ns
    ensures r[|t.ns|] == '.'
    ensures r[|t.ns| + 1..] == t.name
  {
    t.ns + "." + t.name
  }

  /** The display name keeps every character of both parts: it holds one
      more dot than the namespace and the name together, and two types
      with namespaces of the same length have the same display name only
      if their namespaces and names agree. */
  lemma {:induction false} ClrNameParts(t: TypeDef, u: TypeDef)
    ensures Dots(ClrName(t)) == Dots(t.ns) + Dots(t.name) + 1
    ensures ClrName(t) == ClrName(u) && |t.ns| == |u.ns| ==> t.ns == u.ns && t.name == u.name
  {
    DotsAppend(t.ns, ".");
    DotsAppend(t.ns + ".", t.name);
  }

  /** Number of dots in `s`. */
  function Dots(s: string): (n: nat)
    ensures n <= |s|
  {
    if s == [] then 0 else (if s[0] == '.' then 1 else 0) + Dots(s[1..])
  }

  lemma {:induction false} DotsAppend(a: string, b: string)
    ensures Dots(a + b) == Dots(a) + Dots(b)
  {
    if a == [] {
      assert a + b == b;
    } else {
      assert (a + b)[1..] == a[1..] + b;
      DotsAppend(a[1..], b);
    }
  }

  // ---------------------------------------------------------------------
  // Escaping
  // ---------------------------------------------------------------------

  /** The characters the mangling scheme escapes. */
  predicate IsReserved(c: char) {
    c == '.' || c == '_' || c == '`'
  }

  /** The reserved characters whose escape is longer than one character. */
  predicate IsSeparator(c: char) {
    c == '.' || c == '_'
  }

  /** A string with no dot and no backtick: what escaping produces. */
  predicate IsFlat(s: string) {
    '.' !in s && '`' !in s
  }

  /** How many characters an escaped separator adds over its own one. */
  function Growth(ctx: Ctx): (g: nat)
    ensures g >= 1
  {
    if ctx == Nested then 2 else 1
  }

  /** The escape of one character: the branch table of the escaping loop. */
  function EscapeChar(c: char, ctx: Ctx): (r: string)
    ensures IsFlat(r)
    ensures |r| == 1 + (if IsSeparator(c) then Growth(ctx) else 0)
    ensures IsReserved(c) <==> r != [c]
    ensures IsReserved(c) ==> r[0] == '_'
  {
    if c == '.' then (if ctx == Nested then "__C" else "_C")
    else if c == '_' then (if ctx == Nested then "__z" else "__")
    else if c == '`' then "_"
    else [c]
  }

  /** Number of separators (dots and underscores) in `s`. */
  function Separators(s: string): (n: nat)
    ensures n <= |s|
  {
    if s == [] then 0 else (if IsSeparator(s[0]) then 1 else 0) + Separators(s[1..])
  }

  /** The escape of a whole string, character by character. */
  function Escape(s: string, ctx: Ctx): (r: string)
    ensures IsFlat(r)
    ensures |r| == |s| + Growth(ctx) * Separators(s)
  {
    if s == [] then [] else EscapeChar(s[0], ctx) + Escape(s[1..], ctx)
  }

  /** `write_mangled_name`: appends the escape of `name` to `result`,
      leaving what `result` already held in place. */
  method WriteMangledName(result: string, name: string, ctx: Ctx) returns (r: string)
    ensures r == result + Escape(name, ctx)
  {
    r := result;
    for i := 0 to |name|
      invariant r == result + Escape(name[..i], ctx)
    {
      var ch := name[i];
      r := r + EscapeChar(ch, ctx);
      EscapeSingle(ch, ctx);
      EscapeAppend(name[..i], [ch], ctx);
      assert name[..i + 1] == name[..i] + [ch];
    }
    assert name[..|name|] == name;
  }

  /** Escaping one character is the table entry for it. */
  lemma EscapeSingle(c: char, ctx: Ctx)
    ensures Escape([c], ctx) == EscapeChar(c, ctx)
  {
    assert [c][1..] == [];
  }

  /** Escaping is a homomorphism of concatenation. */
  lemma {:induction false} EscapeAppend(a: string, b: string, ctx: Ctx)
    ensures Escape(a + b, ctx) == Escape(a, ctx) + Escape(b, ctx)
  {
    if a == [] {
      assert a + b == b;
    } else {
      assert (a + b)[0] == a[0];
      assert (a + b)[1..] == a[1..] + b;
      EscapeAppend(a[1..], b, ctx);
    }
  }

  /** An escaped string is at least as long as the original and at most
      twice (standalone) or three times (nested) as long. */
  lemma EscapeLengthBounds(s: string, ctx: Ctx)
    ensures |s| <= |Escape(s, ctx)|
    ensures ctx == Standalone ==> |Escape(s, ctx)| <= 2 * |s|
    ensures ctx == Nested ==> |Escape(s, ctx)| <= 3 * |s|
  {
  }

  /** A string with an underscore or a dot in it has at least one separator. */
  lemma {:induction false} SeparatorsPositive(s: string, i: nat)
    requires i < |s| && IsSeparator(s[i])
    ensures Separators(s) > 0
  {
    if i > 0 {
      SeparatorsPositive(s[1..], i - 1);
    }
  }

  /** Escaping leaves a string unchanged exactly when it holds no reserved
      character. */
  lemma {:induction false} EscapeIsIdentityIff(s: string, ctx: Ctx)
    ensures Escape(s, ctx) == s <==> forall i :: 0 <= i < |s| ==> !IsReserved(s[i])
  {
    if forall i :: 0 <= i < |s| ==> !IsReserved(s[i]) {
      EscapeOfPlainString(s, ctx);
    } else {
      var i :| 0 <= i < |s| && IsReserved(s[i]);
      if IsSeparator(s[i]) {
        SeparatorsPositive(s, i);
      } else {
        assert s[i] == '`' && '`' in s;
      }
    }
  }

  lemma {:induction false} EscapeOfPlainString(s: string, ctx: Ctx)
    requires forall i :: 0 <= i < |s| ==> !IsReserved(s[i])
    ensures Escape(s, ctx) == s
  {
    if s != [] {
      assert !IsReserved(s[0]);
      assert forall i :: 0 <= i < |s[1..]| ==> s[1..][i] == s[i + 1];
      EscapeOfPlainString(s[1..], ctx);
    }
  }

  // ---------------------------------------------------------------------
  // Mangled name
  // ---------------------------------------------------------------------

  /** The token that ends the namespace part of a non-generic mangled name;
      it is the escape of a dot in the same context. */
  function Terminator(ctx: Ctx): (r: string)
    ensures r == EscapeChar('.', ctx)
  {
    if ctx == Nested then "__C" else "_C"
  }

  /** `write_type_prefix` on a category: appends an `I` for a delegate and
      nothing for any other category. */
  function WriteTypePrefix(result: string, c: Category): (r: string)
    ensures |result| <= |r| && r[..|result|] == result
    ensures c == Delegate <==> |r| == |result| + 1
    ensures c == Delegate ==> r[|result|] == 'I'
    ensures c != Delegate ==> r == result
  {
    if c == Delegate then result + "I" else result
  }

  /** `write_type_prefix` on a type definition: the prefix of its category. */
  function WriteTypePrefixOf(result: string, t: TypeDef): (r: string)
    ensures |result| <= |r| && r[..|result|] == result
    ensures r == result + "I" <==> t.category == Delegate
    ensures t.category != Delegate ==> r == result
  {
    WriteTypePrefix(result, t.category)
  }

  /** What `mangled_name` writes before the type prefix: the escaped
      namespace and the terminator for a non-generic type, the generic
      marker for a generic one. */
  function Header(t: TypeDef, ctx: Ctx): (h: string)
    ensures IsFlat(h)
    ensures t.genericCount == 0 ==> h == Escape(t.ns + ".", ctx)
    ensures t.genericCount > 0 ==> h == GenericMarker
  {
    EscapeSingle('.', ctx);
    EscapeAppend(t.ns, ".", ctx);
    if t.genericCount == 0 then Escape(t.ns, ctx) + Terminator(ctx) else GenericMarker
  }

  /** `mangled_name`. */
  function MangledName(t: TypeDef, ctx: Ctx): (r: string)
    ensures IsFlat(r)
    ensures t.genericCount == 0 ==>
      var h := Escape(t.ns, ctx) + Terminator(ctx); |h| <= |r| && r[..|h|] == h
    ensures t.genericCount > 0 ==> |r| >= 3 && r[..3] == GenericMarker
    ensures |Escape(t.name, ctx)| <= |r| && r[|r| - |Escape(t.name, ctx)|..] == Escape(t.name, ctx)
  {
    WriteTypePrefixOf(Header(t, ctx), t) + Escape(t.name, ctx)
  }

  /** Right after the header comes an `I` and then the escaped name exactly
      when the type is a delegate; otherwise the escaped name follows the
      header directly. */
  lemma MangledNameDelegatePrefix(t: TypeDef, ctx: Ctx)
    ensures var r, h := MangledName(t, ctx), Header(t, ctx);
      |h| <= |r| && r[..|h|] == h &&
      (r[|h|..] == "I" + Escape(t.name, ctx) <==> t.category == Delegate) &&
      (t.category != Delegate ==> r[|h|..] == Escape(t.name, ctx))
  {
    var r, h, e := MangledName(t, ctx), Header(t, ctx), Escape(t.name, ctx);
    if t.category == Delegate {
      assert r == h + "I" + e;
    } else {
      assert r == h + e;
      assert |r[|h|..]| == |e|;
    }
  }

  /** The escape of a namespace, a dot and a name is the escaped namespace,
      the terminator and the escaped name. */
  lemma EscapeDottedPair(ns: string, name: string, ctx: Ctx)
    ensures Escape(ns + "." + name, ctx) == Escape(ns, ctx) + Terminator(ctx) + Escape(name, ctx)
  {
    EscapeSingle('.', ctx);
    EscapeAppend(ns, ".", ctx);
    EscapeAppend(ns + ".", name, ctx);
  }

  /** A non-generic mangled name is the escape of the display name, with
      the `I` of a delegate placed right after the namespace's dot. */
  lemma MangledNameIsEscapedClrName(t: TypeDef, ctx: Ctx)
    requires t.genericCount == 0
    ensures t.category != Delegate ==> MangledName(t, ctx) == Escape(ClrName(t), ctx)
    ensures t.category == Delegate ==> MangledName(t, ctx) == Escape(t.ns + ".I" + t.name, ctx)
  {
    if t.category == Delegate {
      DelegateMangledNameIsEscaped(t, ctx);
    } else {
      EscapeDottedPair(t.ns, t.name, ctx);
    }
  }

  lemma DelegateMangledNameIsEscaped(t: TypeDef, ctx: Ctx)
    requires t.genericCount == 0 && t.category == Delegate
    ensures MangledName(t, ctx) == Escape(t.ns + ".I" + t.name, ctx)
  {
    var ens, en := Escape(t.ns, ctx), Escape(t.name, ctx);
    calc {
      Escape(t.ns + ".I" + t.name, ctx);
      { assert t.ns + ".I" + t.name == t.ns + "." + ("I" + t.name); }
      Escape(t.ns + "." + ("I" + t.name), ctx);
      { EscapeDottedPair(t.ns, "I" + t.name, ctx); }
      ens + Terminator(ctx) + Escape("I" + t.name, ctx);
      { EscapeSingle('I', ctx); EscapeAppend("I", t.name, ctx); }
      ens + Terminator(ctx) + ("I" + en);
      { assert ens + Terminator(ctx) + ("I" + en) == ens + Terminator(ctx) + "I" + en; }
      MangledName(t, ctx);
    }
  }

  /** The namespace of a generic type does not appear in its mangled name:
      that name is the generic marker, the type prefix and the escaped
      name, whatever the namespace. */
  lemma MangledNameOfGeneric(t: TypeDef, ns: string, ctx: Ctx)
    requires t.genericCount > 0
    ensures MangledName(t, ctx) == WriteTypePrefix(GenericMarker, t.category) + Escape(t.name, ctx)
    ensures MangledName(t, ctx) == MangledName(t.(ns := ns), ctx)
  {
  }

  /** Only whether the generic parameter count is zero matters. */
  lemma MangledNameDependsOnGenericityOnly(t: TypeDef, k: nat, ctx: Ctx)
    requires (k == 0) == (t.genericCount == 0)
    ensures MangledName(t, ctx) == MangledName(t.(genericCount := k), ctx)
  {
  }

  // ---------------------------------------------------------------------
  // Worked examples
  // ---------------------------------------------------------------------

  lemma ClrNameExample()
    ensures ClrName(TypeDef("Sample.Space", "Widget", 0, Class)) == "Sample.Space.Widget"
  {
  }

  /** Escaping a two-character string, one table entry after the other. */
  lemma EscapePair(a: char, b: char, ctx: Ctx)
    ensures Escape([a, b], ctx) == EscapeChar(a, ctx) + EscapeChar(b, ctx)
  {
    EscapeSingle(b, ctx);
    assert [a, b][1..] == [b];
  }

  lemma MangledNameExampleNamespace()
    ensures MangledName(TypeDef("A.B", "C", 0, Class), Standalone) == "A_CB_CC"
  {
    EscapeSingle('C', Standalone);
    EscapePair('.', 'B', Standalone);
    assert "A.B" == "A" + ".B";
    EscapeAppend("A", ".B", Standalone);
    EscapeSingle('A', Standalone);
  }

  lemma MangledNameExampleGeneric()
    ensures MangledName(TypeDef("A.B", "Map`2", 2, Class), Standalone) == "__FMap_2"
  {
    EscapePair('`', '2', Standalone);
    assert "Map`2" == "Map" + "`2";
    EscapeAppend("Map", "`2", Standalone);
    EscapeOfPlainString("Map", Standalone);
  }

  lemma MangledNameExampleDelegate()
    ensures MangledName(TypeDef("X", "Y", 0, Delegate), Nested) == "X__CIY"
  {
    EscapeSingle('X', Nested);
    EscapeSingle('Y', Nested);
  }

  lemma MangledNameExampleUnderscore()
    ensures MangledName(TypeDef("A", "My_Type", 0, Class), Standalone) == "A_CMy__Type"
  {
    assert "My" + "_" + "Type" == "My_Type";
    assert "A" + "_C" + "My" + "__" + "Type" == "A_CMy__Type";
    MangledNameOfUnderscored("A", "My", "Type");
  }

  /** A non-generic class whose namespace is a plain word and whose name is
      two plain words joined by an underscore. */
  lemma MangledNameOfUnderscored(ns: string, a: string, b: string)
    requires forall i :: 0 <= i < |ns| ==> !IsReserved(ns[i])
    requires forall i :: 0 <= i < |a| ==> !IsReserved(a[i])
    requires forall i :: 0 <= i < |b| ==> !IsReserved(b[i])
    ensures MangledName(TypeDef(ns, a + "_" + b, 0, Class), Standalone) == ns + "_C" + a + "__" + b
  {
    var t := TypeDef(ns, a + "_" + b, 0, Class);
    assert MangledName(t, Standalone)
        == Escape(ns, Standalone) + "_C" + Escape(a + "_" + b, Standalone);
    assert Escape(ns, Standalone) == ns by {
      EscapeOfPlainString(ns, Standalone);
    }
    assert Escape(a + "_" + b, Standalone) == a + "__" + b by {
      EscapeUnderscored(a, b);
    }
  }

  /** Escaping two plain words joined by an underscore in the standalone
      context doubles the underscore. */
  lemma EscapeUnderscored(a: string, b: string)
    requires forall i :: 0 <= i < |a| ==> !IsReserved(a[i])
    requires forall i :: 0 <= i < |b| ==> !IsReserved(b[i])
    ensures Escape(a + "_" + b, Standalone) == a + "__" + b
  {
    EscapeAppend(a, "_", Standalone);
    EscapeAppend(a + "_", b, Standalone);
    EscapeSingle('_', Standalone);
    EscapeOfPlainString(a, Standalone);
    EscapeOfPlainString(b, Standalone);
  }

  /** Escaping a dotted pair of plain letters in the standalone context. */
  lemma EscapeDotted(a: char, b: char)
    requires !IsReserved(a) && !IsReserved(b)
    ensures Escape([a, '.', b], Standalone) == [a, '_', 'C', b]
  {
    assert [a, '.', b] == [a] + [ '.', b];
    EscapeAppend([a], ['.', b], Standalone);
    EscapeSingle(a, Standalone);
    EscapePair('.', b, Standalone);
  }

  lemma MangledNameDotInNamespace()
    ensures MangledName(TypeDef("X.Y", "Z", 0, Class), Standalone) == "X_CY_CZ"
  {
    EscapeDotted('X', 'Y');
    EscapeSingle('Z', Standalone);
  }

  lemma MangledNameDotInName()
    ensures MangledName(TypeDef("X", "Y.Z", 0, Class), Standalone) == "X_CY_CZ"
  {
    EscapeDotted('Y', 'Z');
    EscapeSingle('X', Standalone);
  }

  /** Mangled names are not unique: moving a dot between the namespace
      and the name gives the same mangled name. */
  lemma MangledNameCollisionDot()
    ensures MangledName(TypeDef("X.Y", "Z", 0, Class), Standalone)
         == MangledName(TypeDef("X", "Y.Z", 0, Class), Standalone)
  {
    MangledNameDotInNamespace();
    MangledNameDotInName();
  }

  /** Mangled names are not unique: a class `IFoo` and a delegate `Foo` in
      one namespace get the same mangled name. */
  lemma MangledNameCollisionDelegate()
    ensures MangledName(TypeDef("N", "IFoo", 0, Class), Standalone)
         == MangledName(TypeDef("N", "Foo", 0, Delegate), Standalone)
  {
    assert Escape("IFoo", Standalone) == "I" + Escape("Foo", Standalone) by {
      assert "IFoo" == "I" + "Foo";
      EscapeAppend("I", "Foo", Standalone);
      EscapeSingle('I', Standalone);
    }
  }
}
