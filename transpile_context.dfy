/**
 * `TranspileContext`: the package and file the generated code goes to, and
 * the two counters that number anonymous types and anonymous funcs, with
 * the helpers that derive the names of generated classes.
 */
module Transpile {
  import opened Common

  /** KotlinPoet's `ClassName(packageName, simpleName)`. */
  datatype ClassName = ClassName(packageName: string, simpleName: string)

  predicate IsDigit(c: char)
  {
    '0' <= c <= '9'
  }

  function Digit(d: nat): (c: char)
    requires d < 10
    ensures IsDigit(c) && c as int - '0' as int == d
  {
    ('0' as int + d) as char
  }

  function DigitValue(c: char): (d: nat)
    requires IsDigit(c)
    ensures d < 10
  {
    c as int - '0' as int
  }

  /** `Int.toString()` of a non-negative value: decimal digits, no leading zero. */
  function NatToString(n: nat): (s: string)
    ensures |s| >= 1 && forall i :: 0 <= i < |s| ==> IsDigit(s[i])
    ensures |s| > 1 ==> s[0] != '0'
    decreases n
  {
    if n < 10 then [Digit(n)] else NatToString(n / 10) + [Digit(n % 10)]
  }

  /** The value of a string of decimal digits. */
  function ParseDecimal(s: string): nat
    requires forall i :: 0 <= i < |s| ==> IsDigit(s[i])
  {
    if s == [] then 0
    else ParseDecimal(s[..|s| - 1]) * 10 + DigitValue(s[|s| - 1])
  }

  lemma {:induction false} ParseNatToString(n: nat)
    ensures ParseDecimal(NatToString(n)) == n
    decreases n
  {
    if n >= 10 {
      var s := NatToString(n);
      assert s[..|s| - 1] == NatToString(n / 10);
      ParseNatToString(n / 10);
    }
  }

  lemma NatToStringInjective(m: nat, n: nat)
    requires NatToString(m) == NatToString(n)
    ensures m == n
  {
    ParseNatToString(m);
    ParseNatToString(n);
  }

  /** The `n`-th anonymous type's name, `AnonIDLType<n>`. */
  function AnonymousTypeName(packageName: string, n: nat): ClassName
  {
    ClassName(packageName, "AnonIDLType" + NatToString(n))
  }

  /** The `n`-th anonymous func's name, `AnonFunc<n>`. */
  function AnonymousFuncName(packageName: string, n: nat): ClassName
  {
    ClassName(packageName, "AnonFunc" + NatToString(n))
  }

  lemma PrefixedInjective(p: string, a: string, b: string)
    requires p + a == p + b
    ensures a == b
  {
    assert a == (p + a)[|p|..];
    assert b == (p + b)[|p|..];
  }

  /**
   * Different counts give different names, an anonymous type's name is never
   * an anonymous func's, and neither can be taken for the name of a generated
   * `ValueSer` or `Result` class, which end in letters rather than digits.
   */
  lemma AnonymousNamesDistinct(ctx: TranspileContext, m: nat, n: nat, t: string, f: string)
    ensures m != n ==> AnonymousTypeName(ctx.packageName, m) != AnonymousTypeName(ctx.packageName, n)
    ensures m != n ==> AnonymousFuncName(ctx.packageName, m) != AnonymousFuncName(ctx.packageName, n)
    ensures AnonymousTypeName(ctx.packageName, m) != AnonymousFuncName(ctx.packageName, n)
    ensures ctx.CreateValueSerTypeName(t) != AnonymousTypeName(ctx.packageName, m)
    ensures ctx.CreateValueSerTypeName(t) != AnonymousFuncName(ctx.packageName, m)
    ensures ctx.CreateResultValueTypeName(f) != AnonymousTypeName(ctx.packageName, m)
    ensures ctx.CreateResultValueTypeName(f) != AnonymousFuncName(ctx.packageName, m)
    ensures ctx.CreateResultValueTypeName(f) != ctx.CreateValueSerTypeName(t)
  {
    if AnonymousTypeName(ctx.packageName, m) == AnonymousTypeName(ctx.packageName, n) {
      PrefixedInjective("AnonIDLType", NatToString(m), NatToString(n));
      NatToStringInjective(m, n);
    }
    if AnonymousFuncName(ctx.packageName, m) == AnonymousFuncName(ctx.packageName, n) {
      PrefixedInjective("AnonFunc", NatToString(m), NatToString(n));
      NatToStringInjective(m, n);
    }
    assert AnonymousTypeName(ctx.packageName, m).simpleName[4] == 'I';
    assert AnonymousFuncName(ctx.packageName, n).simpleName[4] == 'F';
    var vs := ctx.CreateValueSerTypeName(t).simpleName;
    var rs := ctx.CreateResultValueTypeName(f).simpleName;
    assert vs[|vs| - 1] == 'r' && rs[|rs| - 1] == 't';
    var ts := AnonymousTypeName(ctx.packageName, m).simpleName;
    var fs := AnonymousFuncName(ctx.packageName, m).simpleName;
    assert ts[|ts| - 1] == NatToString(m)[|NatToString(m)| - 1];
    assert fs[|fs| - 1] == NatToString(m)[|NatToString(m)| - 1];
  }

  /** Distinct type names get distinct `ValueSer` names, distinct funcs distinct `Result` names. */
  lemma DerivedNamesInjective(ctx: TranspileContext, a: string, b: string)
    ensures ctx.CreateValueSerTypeName(a) == ctx.CreateValueSerTypeName(b) ==> a == b
    ensures ctx.CreateResultValueTypeName(a) == ctx.CreateResultValueTypeName(b) ==> a == b
  {
    if ctx.CreateValueSerTypeName(a) == ctx.CreateValueSerTypeName(b) {
      assert a == ctx.CreateValueSerTypeName(a).simpleName[..|a|];
      assert b == ctx.CreateValueSerTypeName(b).simpleName[..|b|];
    }
    if ctx.CreateResultValueTypeName(a) == ctx.CreateResultValueTypeName(b) {
      assert a == ctx.CreateResultValueTypeName(a).simpleName[..|a|];
      assert b == ctx.CreateResultValueTypeName(b).simpleName[..|b|];
    }
  }

  /**
   * A field's or branch's member name: its own name, or its `idx` in decimal
   * when it has none.
   */
  function MemberName(name: Option<string>, idx: nat): (s: string)
    ensures name.None? ==> (forall i :: 0 <= i < |s| ==> IsDigit(s[i])) && ParseDecimal(s) == idx
    ensures name.Some? ==> s == name.value
  {
    match name
    case Some(n) => n
    case None => ParseNatToString(idx); NatToString(idx)
  }

  class TranspileContext {
    const packageName: string
    const fileName: string
    var anonymousTypeCount: nat
    var anonymousFuncCount: nat
    /** The anonymous names handed out so far, oldest first. */
    ghost var issuedTypeNames: seq<ClassName>
    ghost var issuedFuncNames: seq<ClassName>

    ghost predicate Valid()
      reads this
    {
      && |issuedTypeNames| == anonymousTypeCount
      && |issuedFuncNames| == anonymousFuncCount
      && (forall i :: 0 <= i < |issuedTypeNames| ==> issuedTypeNames[i] == AnonymousTypeName(packageName, i))
      && (forall i :: 0 <= i < |issuedFuncNames| ==> issuedFuncNames[i] == AnonymousFuncName(packageName, i))
    }

    constructor (packageName: string, fileName: string)
      ensures Valid()
      ensures this.packageName == packageName && this.fileName == fileName
      ensures anonymousTypeCount == 0 && anonymousFuncCount == 0
    {
      this.packageName := packageName;
      this.fileName := fileName;
      anonymousTypeCount := 0;
      anonymousFuncCount := 0;
      issuedTypeNames := [];
      issuedFuncNames := [];
    }

    /** `nextAnonymousTypeName()`: a name never handed out before; only its own counter moves. */
    method NextAnonymousTypeName() returns (name: ClassName)
      requires Valid()
      modifies this
      ensures Valid()
      ensures name == AnonymousTypeName(packageName, old(anonymousTypeCount))
      ensures name !in old(issuedTypeNames) && issuedTypeNames == old(issuedTypeNames) + [name]
      ensures anonymousTypeCount == old(anonymousTypeCount) + 1
      ensures anonymousFuncCount == old(anonymousFuncCount) && issuedFuncNames == old(issuedFuncNames)
    {
      name := AnonymousTypeName(packageName, anonymousTypeCount);
      forall i | 0 <= i < |issuedTypeNames| ensures issuedTypeNames[i] != name {
        AnonymousNamesDistinct(this, i, anonymousTypeCount, "", "");
      }
      anonymousTypeCount := anonymousTypeCount + 1;
      issuedTypeNames := issuedTypeNames + [name];
    }

    /** `nextAnonymousFuncTypeName()`: the same with the func counter. */
    method NextAnonymousFuncTypeName() returns (name: ClassName)
      requires Valid()
      modifies this
      ensures Valid()
      ensures name == AnonymousFuncName(packageName, old(anonymousFuncCount))
      ensures name !in old(issuedFuncNames) && issuedFuncNames == old(issuedFuncNames) + [name]
      ensures anonymousFuncCount == old(anonymousFuncCount) + 1
      ensures anonymousTypeCount == old(anonymousTypeCount) && issuedTypeNames == old(issuedTypeNames)
    {
      name := AnonymousFuncName(packageName, anonymousFuncCount);
      forall i | 0 <= i < |issuedFuncNames| ensures issuedFuncNames[i] != name {
        AnonymousNamesDistinct(this, i, anonymousFuncCount, "", "");
      }
      anonymousFuncCount := anonymousFuncCount + 1;
      issuedFuncNames := issuedFuncNames + [name];
    }

    /** `name ?: context.nextAnonymousTypeName()`, as records, variants and services start. */
    method TypeNameOrNext(name: Option<ClassName>) returns (resolved: ClassName)
      requires Valid()
      modifies this
      ensures Valid()
      ensures name.Some? ==> resolved == name.value && anonymousTypeCount == old(anonymousTypeCount)
      ensures name.None? ==> (resolved == AnonymousTypeName(packageName, old(anonymousTypeCount))
                              && anonymousTypeCount == old(anonymousTypeCount) + 1)
      ensures anonymousFuncCount == old(anonymousFuncCount) && issuedFuncNames == old(issuedFuncNames)
    {
      if name.Some? {
        resolved := name.value;
      } else {
        resolved := NextAnonymousTypeName();
      }
    }

    /** `name ?: context.nextAnonymousFuncTypeName()`, as funcs start. */
    method FuncNameOrNext(name: Option<ClassName>) returns (resolved: ClassName)
      requires Valid()
      modifies this
      ensures Valid()
      ensures name.Some? ==> resolved == name.value && anonymousFuncCount == old(anonymousFuncCount)
      ensures name.None? ==> (resolved == AnonymousFuncName(packageName, old(anonymousFuncCount))
                              && anonymousFuncCount == old(anonymousFuncCount) + 1)
      ensures anonymousTypeCount == old(anonymousTypeCount) && issuedTypeNames == old(issuedTypeNames)
    {
      if name.Some? {
        resolved := name.value;
      } else {
        resolved := NextAnonymousFuncTypeName();
      }
    }

    /** `createValueSerTypeName(typeName)`: `<typeName>ValueSer` in this context's package. */
    function CreateValueSerTypeName(typeName: string): (c: ClassName)
      ensures c.packageName == packageName
      ensures |c.simpleName| == |typeName| + 8 && c.simpleName[..|typeName|] == typeName
      ensures c.simpleName[|typeName|..] == "ValueSer"
    {
      ClassName(packageName, typeName + "ValueSer")
    }

    /** `createResultValueTypeName(funcName)`: `<funcName>Result` in this context's package. */
    function CreateResultValueTypeName(funcName: string): (c: ClassName)
      ensures c.packageName == packageName
      ensures |c.simpleName| == |funcName| + 6 && c.simpleName[..|funcName|] == funcName
      ensures c.simpleName[|funcName|..] == "Result"
    {
      ClassName(packageName, funcName + "Result")
    }
  }
}
