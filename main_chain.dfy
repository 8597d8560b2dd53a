/**
 * `getApplicationClassesFromMainDex`: the application class followed by its
 * superclasses, looked up dex by dex, up to the class whose superclass is
 * android.app.Application.
 */
module MainChain {
  import opened Wrappers
  import opened Strings

  /** A class definition as the walk sees it: its type descriptor and its superclass's. */
  datatype ClassDef = ClassDef(classType: string, superclass: string)

  /** `classDotNameToType`: "L", the name with every '.' turned into '/', then ";". */
  function ClassDotNameToType(dotName: string): (t: string)
    ensures |t| == |dotName| + 2 && t[0] == 'L' && t[|t| - 1] == ';'
    ensures forall i :: 0 <= i < |dotName| ==> t[i + 1] == if dotName[i] == '.' then '/' else dotName[i]
    ensures '.' !in t
  {
    "L" + ReplaceChar(dotName, '.', '/') + ";"
  }

  /** The type descriptor of android.app.Application, `classDotNameToType(ANDROID_APP_APPLICATION)`. */
  const ApplicationType: string := "Landroid/app/Application;"

  lemma ApplicationTypeDescriptor()
    ensures ClassDotNameToType("android.app.Application") == ApplicationType
  {
    ApplicationNameParts();
    DottedName3("android", "app", "Application");
  }

  lemma ApplicationNameParts()
    ensures "android" + "." + "app" + "." + "Application" == "android.app.Application"
    ensures "L" + "android" + "/" + "app" + "/" + "Application" + ";" == ApplicationType
  {
    assert "android" + "." + "app" + "." + "Application" == "android.app.Application";
  }

  /** A dot before a dot-free suffix becomes a slash; the rest is replaced on its own. */
  lemma ReplaceLastDot(a: string, b: string)
    requires '.' !in b
    ensures ReplaceChar(a + "." + b, '.', '/') == ReplaceChar(a, '.', '/') + "/" + b
  {
    ReplaceCharConcat(a + ".", b, '.', '/');
    ReplaceCharConcat(a, ".", '.', '/');
    ReplaceCharAbsent(b, '.', '/');
    assert ReplaceChar(".", '.', '/') == "/";
  }

  /** A three-part dotted name has both dots turned into slashes. */
  lemma ReplaceTwoDots(a: string, b: string, c: string)
    requires '.' !in a && '.' !in b && '.' !in c
    ensures ReplaceChar(a + "." + b + "." + c, '.', '/') == a + "/" + b + "/" + c
  {
    ReplaceLastDot(a + "." + b, c);
    ReplaceLastDot(a, b);
    ReplaceCharAbsent(a, '.', '/');
  }

  /** A three-part dotted name becomes the slash-separated descriptor. */
  lemma DottedName3(a: string, b: string, c: string)
    requires '.' !in a && '.' !in b && '.' !in c
    ensures ClassDotNameToType(a + "." + b + "." + c) == "L" + a + "/" + b + "/" + c + ";"
  {
    ReplaceTwoDots(a, b, c);
    assert "L" + (a + "/" + b + "/" + c) + ";" == "L" + a + "/" + b + "/" + c + ";";
  }

  /** `getClassDefFromType`: the first class of `classes` whose type is `t`, or None. */
  function GetClassDefFromType(classes: seq<ClassDef>, t: string): (r: Option<ClassDef>)
    ensures r.Some? ==> r.value in classes && r.value.classType == t
  {
    if classes == [] then None
    else if classes[0].classType == t then Some(classes[0])
    else
      GetClassDefFromType(classes[1..], t)
  }

  /** Nothing is found exactly when no class of `classes` has type `t`. */
  lemma {:induction false} NoDefinitionFound(classes: seq<ClassDef>, t: string)
    ensures GetClassDefFromType(classes, t).None? <==> forall i :: 0 <= i < |classes| ==> classes[i].classType != t
  {
    if classes != [] {
      NoDefinitionFound(classes[1..], t);
      assert forall i :: 1 <= i < |classes| ==> classes[1..][i - 1] == classes[i];
    }
  }

  /** The class found is the first one of that type: classes before it have other types. */
  lemma {:induction false} FirstDefinitionFound(classes: seq<ClassDef>, t: string, i: nat)
    requires i < |classes| && classes[i].classType == t
    requires forall j :: 0 <= j < i ==> classes[j].classType != t
    ensures GetClassDefFromType(classes, t) == Some(classes[i])
  {
    if i > 0 {
      FirstDefinitionFound(classes[1..], t, i - 1);
    }
  }

  /**
   * The types the walk appends after `t`, starting at dex `i`, or None once more
   * than `fuel` types would be appended (on a cyclic superclass chain the source
   * never stops). It appends at most `fuel` types, and never Application itself.
   */
  function Walk(tables: seq<seq<ClassDef>>, i: nat, t: string, fuel: nat): (r: Option<seq<string>>)
    requires i <= |tables|
    ensures r.Some? ==> |r.value| <= fuel && ApplicationType !in r.value
    decreases |tables| - i, fuel
  {
    if i == |tables| then Some([])
    else
      match GetClassDefFromType(tables[i], t)
      case None => Walk(tables, i + 1, t, fuel)
      case Some(c) =>
        if c.superclass == ApplicationType then Some([])
        else if fuel == 0 then None
        else
          match Walk(tables, i, c.superclass, fuel - 1)
          case None => None
          case Some(rest) => Some([c.superclass] + rest)
  }

  /**
   * The whole list: the application class's type, then what the walk appends;
   * None exactly when the walk ran out of fuel.
   */
  function ApplicationChain(tables: seq<seq<ClassDef>>, applicationClass: string, fuel: nat): (r: Option<seq<string>>)
    ensures r.None? <==> Walk(tables, 0, ClassDotNameToType(applicationClass), fuel).None?
    ensures r.Some? ==> 1 <= |r.value| <= fuel + 1 && r.value[0] == ClassDotNameToType(applicationClass)
                        && ApplicationType !in r.value[1..]
  {
    var start := ClassDotNameToType(applicationClass);
    match Walk(tables, 0, start, fuel)
    case None => None
    case Some(rest) => Some([start] + rest)
  }

  function Prepend(prefix: seq<string>, r: Option<seq<string>>): Option<seq<string>> {
    match r
    case None => None
    case Some(rest) => Some(prefix + rest)
  }

  lemma PrependTwice(a: seq<string>, b: seq<string>, r: Option<seq<string>>)
    ensures Prepend(a, Prepend(b, r)) == Prepend(a + b, r)
  {
    if r.Some? {
      assert a + (b + r.value) == (a + b) + r.value;
    }
  }

  /**
   * A found class ends the walk when its superclass is Application, fails it when
   * no fuel is left, and otherwise adds that superclass and goes on from it.
   */
  lemma WalkFound(tables: seq<seq<ClassDef>>, i: nat, t: string, fuel: nat, c: ClassDef)
    requires i < |tables| && GetClassDefFromType(tables[i], t) == Some(c)
    ensures Walk(tables, i, t, fuel) ==
      if c.superclass == ApplicationType then Some([])
      else if fuel == 0 then None
      else Prepend([c.superclass], Walk(tables, i, c.superclass, fuel - 1))
  {
  }

  /**
   * `getApplicationClassesFromMainDex` over the class tables of the dex files in
   * order; `fuel` bounds how many superclasses it may append (None: more were needed).
   */
  method GetApplicationClassesFromMainDex(tables: seq<seq<ClassDef>>, applicationClass: string, fuel: nat)
    returns (r: Option<seq<string>>)
    ensures r == ApplicationChain(tables, applicationClass, fuel)
  {
    var tmpType := ClassDotNameToType(applicationClass);
    var mainDexClassList := [tmpType];
    var left := fuel;
    ghost var chain := Prepend(mainDexClassList, Walk(tables, 0, tmpType, fuel));
    assert chain == ApplicationChain(tables, applicationClass, fuel);
    for i := 0 to |tables|
      invariant Prepend(mainDexClassList, Walk(tables, i, tmpType, left)) == chain
    {
      var classes := tables[i];
      while true
        invariant Prepend(mainDexClassList, Walk(tables, i, tmpType, left)) == chain
        decreases left
      {
        var classDef := GetClassDefFromType(classes, tmpType);
        if classDef.None? {
          assert Walk(tables, i, tmpType, left) == Walk(tables, i + 1, tmpType, left);
          break;
        }
        WalkFound(tables, i, tmpType, left, classDef.value);
        if ApplicationType == classDef.value.superclass {
          assert mainDexClassList + [] == mainDexClassList;
          return Some(mainDexClassList);
        }
        if left == 0 {
          return None;
        }
        PrependTwice(mainDexClassList, [classDef.value.superclass], Walk(tables, i, classDef.value.superclass, left - 1));
        tmpType := classDef.value.superclass;
        mainDexClassList := mainDexClassList + [tmpType];
        left := left - 1;
      }
    }
    assert Walk(tables, |tables|, tmpType, left) == Some([]);
    assert mainDexClassList + [] == mainDexClassList;
    return Some(mainDexClassList);
  }

  /** Some dex finds class `a` first with superclass `b`, and `b` is not Application. */
  ghost predicate SuperclassLink(tables: seq<seq<ClassDef>>, a: string, b: string) {
    b != ApplicationType
    && exists j :: 0 <= j < |tables| && GetClassDefFromType(tables[j], a) == Some(ClassDef(a, b))
  }

  ghost predicate Linked(tables: seq<seq<ClassDef>>, s: seq<string>) {
    forall k :: 1 <= k < |s| ==> SuperclassLink(tables, s[k - 1], s[k])
  }

  lemma {:induction false} WalkLinked(tables: seq<seq<ClassDef>>, i: nat, t: string, fuel: nat)
    requires i <= |tables| && Walk(tables, i, t, fuel).Some?
    ensures Linked(tables, [t] + Walk(tables, i, t, fuel).value)
    decreases |tables| - i, fuel
  {
    if i < |tables| {
      match GetClassDefFromType(tables[i], t)
      case None => WalkLinked(tables, i + 1, t, fuel);
      case Some(c) =>
        if c.superclass != ApplicationType {
          var rest := Walk(tables, i, c.superclass, fuel - 1).value;
          WalkLinked(tables, i, c.superclass, fuel - 1);
          var s := [t] + ([c.superclass] + rest);
          assert SuperclassLink(tables, t, c.superclass);
          forall k | 2 <= k < |s| ensures SuperclassLink(tables, s[k - 1], s[k]) {
            assert s[k - 1] == ([c.superclass] + rest)[k - 2];
            assert s[k] == ([c.superclass] + rest)[k - 1];
          }
        }
    }
  }

  /**
   * Each element of the chain after the first is the superclass of the class
   * found for the one before it.
   */
  lemma ChainShape(tables: seq<seq<ClassDef>>, applicationClass: string, fuel: nat)
    requires ApplicationChain(tables, applicationClass, fuel).Some?
    ensures Linked(tables, ApplicationChain(tables, applicationClass, fuel).value)
  {
    WalkLinked(tables, 0, ClassDotNameToType(applicationClass), fuel);
  }

  function Last(s: seq<string>): string
    requires |s| > 0
  {
    s[|s| - 1]
  }

  /**
   * Where the walk stops: at a type whose class, found in some dex from `i` on,
   * extends Application, or at a type the last dex does not define.
   */
  lemma {:induction false} WalkStops(tables: seq<seq<ClassDef>>, i: nat, t: string, fuel: nat)
    requires i < |tables| && Walk(tables, i, t, fuel).Some?
    ensures var l := Last([t] + Walk(tables, i, t, fuel).value);
      (exists j :: i <= j < |tables| && GetClassDefFromType(tables[j], l).Some?
                   && GetClassDefFromType(tables[j], l).value.superclass == ApplicationType)
      || GetClassDefFromType(tables[|tables| - 1], l).None?
    decreases |tables| - i, fuel
  {
    match GetClassDefFromType(tables[i], t)
    case None =>
      if i + 1 < |tables| {
        WalkStops(tables, i + 1, t, fuel);
      }
    case Some(c) =>
      if c.superclass != ApplicationType {
        var rest := Walk(tables, i, c.superclass, fuel - 1).value;
        WalkStops(tables, i, c.superclass, fuel - 1);
        assert Last([t] + ([c.superclass] + rest)) == Last([c.superclass] + rest);
      }
  }

  /** A type that no remaining dex defines ends the walk without adding anything. */
  lemma {:induction false} WalkNotFound(tables: seq<seq<ClassDef>>, i: nat, t: string, fuel: nat)
    requires i <= |tables|
    requires forall j :: i <= j < |tables| ==> GetClassDefFromType(tables[j], t).None?
    ensures Walk(tables, i, t, fuel) == Some([])
    decreases |tables| - i
  {
    if i < |tables| {
      WalkNotFound(tables, i + 1, t, fuel);
    }
  }

  /** More fuel never changes a completed walk. */
  lemma {:induction false} WalkMoreFuel(tables: seq<seq<ClassDef>>, i: nat, t: string, fuel: nat, more: nat)
    requires i <= |tables| && fuel <= more && Walk(tables, i, t, fuel).Some?
    ensures Walk(tables, i, t, more) == Walk(tables, i, t, fuel)
    decreases |tables| - i, fuel
  {
    if i < |tables| {
      match GetClassDefFromType(tables[i], t)
      case None => WalkMoreFuel(tables, i + 1, t, fuel, more);
      case Some(c) =>
        if c.superclass != ApplicationType {
          WalkMoreFuel(tables, i, c.superclass, fuel - 1, more - 1);
        }
    }
  }

  /** com.app.App extends com.app.BaseApp extends Application: the chain is App, BaseApp. */
  lemma BaseAppChain(fuel: nat)
    requires fuel >= 1
    ensures ApplicationChain([[ClassDef("Lcom/app/App;", "Lcom/app/BaseApp;"),
                               ClassDef("Lcom/app/BaseApp;", ApplicationType)]], "com.app.App", fuel)
         == Some(["Lcom/app/App;", "Lcom/app/BaseApp;"])
  {
    assert "com" + "." + "app" + "." + "App" == "com.app.App";
    assert "L" + "com" + "/" + "app" + "/" + "App" + ";" == "Lcom/app/App;";
    DottedName3("com", "app", "App");
    var app := ClassDef("Lcom/app/App;", "Lcom/app/BaseApp;");
    var base := ClassDef("Lcom/app/BaseApp;", ApplicationType);
    var tables := [[app, base]];
    assert app.classType != base.classType;
    assert GetClassDefFromType([base], base.classType) == Some(base);
    assert GetClassDefFromType(tables[0], app.classType) == Some(app);
    assert GetClassDefFromType(tables[0], base.classType) == Some(base);
    assert Walk(tables, 0, base.classType, fuel - 1) == Some([]);
    WalkFound(tables, 0, app.classType, fuel, app);
    assert [base.classType] + [] == [base.classType];
    assert Walk(tables, 0, app.classType, fuel) == Some([base.classType]);
    assert [app.classType] + [base.classType] == ["Lcom/app/App;", "Lcom/app/BaseApp;"];
  }
}
