/** The code-to-script registry of util4j's AbstractScriptProvider: which of
    the loaded classes become scripts, how the message-code map is built from
    them (first class per code wins, abstract types skipped), how loadAllClass
    installs that map, and the order in which buildInstance looks a code up.
    Class loading and reflection are replaced by a descriptor per class. */
module ScriptProvider {
  import opened Wrappers

  /** What the registry learns about one loaded class through reflection:
      whether it is assignable to IScript, whether it is abstract or an
      interface, whether newInstance succeeds on it, and the message code its
      instance reports. */
  datatype ClassInfo = ClassInfo(
    name: string,
    isScript: bool,
    isAbstractOrInterface: bool,
    instantiable: bool,
    messageCode: int)

  /** The provider's life cycle (the State enum). */
  datatype State = Ready | Loading | Loaded

  // ---------------------------------------------------------------------
  // findScriptClass

  /** The script classes among `s`, in the order they come. */
  function ScriptsOf(s: seq<ClassInfo>): seq<ClassInfo>
  {
    if s == [] then []
    else (if s[0].isScript then [s[0]] else []) + ScriptsOf(s[1..])
  }

  lemma {:induction false} ScriptsOfAppend(a: seq<ClassInfo>, b: seq<ClassInfo>)
    ensures ScriptsOf(a + b) == ScriptsOf(a) + ScriptsOf(b)
    decreases |a|
  {
    if a == [] {
      assert a + b == b;
    } else {
      assert (a + b)[0] == a[0] && (a + b)[1..] == a[1..] + b;
      ScriptsOfAppend(a[1..], b);
    }
  }

  /** findScriptClass keeps exactly the candidates assignable to IScript. */
  lemma {:induction false} ScriptsOfMembers(s: seq<ClassInfo>, c: ClassInfo)
    ensures c in ScriptsOf(s) <==> c in s && c.isScript
    decreases |s|
  {
    if s != [] {
      ScriptsOfMembers(s[1..], c);
      assert s == [s[0]] + s[1..];
    }
  }

  /** Candidates without repetitions (a Set) give scripts without
      repetitions. */
  lemma {:induction false} ScriptsOfDistinct(s: seq<ClassInfo>)
    requires forall i, j :: 0 <= i < j < |s| ==> s[i] != s[j]
    ensures forall i, j :: 0 <= i < j < |ScriptsOf(s)| ==> ScriptsOf(s)[i] != ScriptsOf(s)[j]
    decreases |s|
  {
    if s != [] {
      ScriptsOfDistinct(s[1..]);
      if s[0].isScript {
        ScriptsOfMembers(s[1..], s[0]);
        assert s[0] !in s[1..];
      }
    }
  }

  /** findScriptClass: one pass over the candidates, in their iteration
      order, adding each script class to the result. */
  method FindScriptClass(clazzs: seq<ClassInfo>) returns (scriptClazzs: seq<ClassInfo>)
    ensures scriptClazzs == ScriptsOf(clazzs)
  {
    scriptClazzs := [];
    for i := 0 to |clazzs|
      invariant scriptClazzs == ScriptsOf(clazzs[..i])
    {
      var clazz := clazzs[i];
      assert clazzs[..i + 1] == clazzs[..i] + [clazz];
      ScriptsOfAppend(clazzs[..i], [clazz]);
      if clazz.isScript {
        scriptClazzs := scriptClazzs + [clazz];
      }
    }
    assert clazzs[..|clazzs|] == clazzs;
  }

  // ---------------------------------------------------------------------
  // findScriptCodeMap

  /** newInstance is called on every concrete script; it fails when one of
      them cannot be instantiated. */
  predicate AllInstantiable(s: seq<ClassInfo>)
  {
    forall i :: 0 <= i < |s| ==> !s[i].isAbstractOrInterface ==> s[i].instantiable
  }

  /** The map findScriptCodeMap builds when no newInstance fails: the classes
      are taken in order; an abstract class or interface is skipped, and a
      concrete class is registered under its code unless that code is
      already taken. */
  function CodeMapOf(s: seq<ClassInfo>): map<int, ClassInfo>
  {
    if s == [] then map[]
    else
      var m := CodeMapOf(s[..|s| - 1]);
      var c := s[|s| - 1];
      if c.isAbstractOrInterface || c.messageCode in m then m
      else m[c.messageCode := c]
  }

  /** Reference definition: the first concrete class in `s` with the given
      code, if any. */
  function FirstWithCode(s: seq<ClassInfo>, code: int): Option<ClassInfo>
  {
    if s == [] then None
    else if !s[0].isAbstractOrInterface && s[0].messageCode == code then Some(s[0])
    else FirstWithCode(s[1..], code)
  }

  /** The entry of `code` in `m`, as ConcurrentHashMap.get gives it. */
  function Lookup(m: map<int, ClassInfo>, code: int): (r: Option<ClassInfo>)
    ensures r.Some? <==> code in m
    ensures r.Some? ==> r.value == m[code]
  {
    if code in m then Some(m[code]) else None
  }

  lemma {:induction false} FirstWithCodeAppend(s: seq<ClassInfo>, c: ClassInfo, code: int)
    ensures FirstWithCode(s + [c], code) ==
              if FirstWithCode(s, code).Some? then FirstWithCode(s, code)
              else if !c.isAbstractOrInterface && c.messageCode == code then Some(c)
              else None
    decreases |s|
  {
    if s != [] {
      assert (s + [c])[1..] == s[1..] + [c];
      FirstWithCodeAppend(s[1..], c, code);
    }
  }

  /** The first concrete class of each code is the one registered: a code is
      a key exactly when some concrete class has it, and its entry is the
      first such class. */
  lemma {:induction false} CodeMapOfIsFirst(s: seq<ClassInfo>, code: int)
    ensures Lookup(CodeMapOf(s), code) == FirstWithCode(s, code)
    decreases |s|
  {
    if s != [] {
      var init, c := s[..|s| - 1], s[|s| - 1];
      assert s == init + [c];
      CodeMapOfIsFirst(init, code);
      FirstWithCodeAppend(init, c, code);
      if c.messageCode != code {
        CodeMapOfIsFirst(init, c.messageCode);
      }
    }
  }

  /** What FirstWithCode finds is a concrete class of `s` with that code, and
      it finds one whenever `s` has one. */
  lemma {:induction false} FirstWithCodeFinds(s: seq<ClassInfo>, code: int)
    ensures FirstWithCode(s, code).Some? ==>
              FirstWithCode(s, code).value in s
              && !FirstWithCode(s, code).value.isAbstractOrInterface
              && FirstWithCode(s, code).value.messageCode == code
    ensures (exists i :: 0 <= i < |s| && !s[i].isAbstractOrInterface && s[i].messageCode == code) ==>
              FirstWithCode(s, code).Some?
    decreases |s|
  {
    if s != [] {
      FirstWithCodeFinds(s[1..], code);
      if exists i :: 0 <= i < |s| && !s[i].isAbstractOrInterface && s[i].messageCode == code {
        var i :| 0 <= i < |s| && !s[i].isAbstractOrInterface && s[i].messageCode == code;
        if i > 0 {
          assert s[1..][i - 1] == s[i];
        }
      }
    }
  }

  /** Every entry maps a code to a concrete class of the input whose message
      code is that code: abstract classes and interfaces are never
      registered. */
  lemma CodeMapSound(s: seq<ClassInfo>, code: int)
    requires code in CodeMapOf(s)
    ensures CodeMapOf(s)[code] in s
    ensures !CodeMapOf(s)[code].isAbstractOrInterface
    ensures CodeMapOf(s)[code].messageCode == code
  {
    CodeMapOfIsFirst(s, code);
    FirstWithCodeFinds(s, code);
  }

  /** Every concrete class's code is a key. */
  lemma CodeMapComplete(s: seq<ClassInfo>, i: int)
    requires 0 <= i < |s| && !s[i].isAbstractOrInterface
    ensures s[i].messageCode in CodeMapOf(s)
  {
    CodeMapOfIsFirst(s, s[i].messageCode);
    FirstWithCodeFinds(s, s[i].messageCode);
  }

  /** A later class with a code already taken is rejected, not substituted:
      the entries of any prefix survive unchanged in the whole map. */
  lemma {:induction false} CodeMapKeepsEntries(s: seq<ClassInfo>, n: nat, code: int)
    requires n <= |s|
    requires code in CodeMapOf(s[..n])
    ensures code in CodeMapOf(s) && CodeMapOf(s)[code] == CodeMapOf(s[..n])[code]
    decreases |s| - n
  {
    if n < |s| {
      var t := s[..n + 1];
      assert t[..|t| - 1] == s[..n];
      CodeMapKeepsEntries(s, n + 1, code);
    } else {
      assert s[..n] == s;
    }
  }

  /** findScriptCodeMap: one pass over the script classes in their iteration
      order. None stands for the exception newInstance throws on a concrete
      class it cannot instantiate; the map built so far is then lost. */
  method FindScriptCodeMap(scriptClazzs: seq<ClassInfo>) returns (r: Option<map<int, ClassInfo>>)
    ensures r.None? <==> !AllInstantiable(scriptClazzs)
    ensures r.Some? ==> r.value == CodeMapOf(scriptClazzs)
  {
    var codeMap: map<int, ClassInfo> := map[];
    for i := 0 to |scriptClazzs|
      invariant AllInstantiable(scriptClazzs[..i])
      invariant codeMap == CodeMapOf(scriptClazzs[..i])
    {
      var scriptClazz := scriptClazzs[i];
      assert scriptClazzs[..i + 1][..i] == scriptClazzs[..i];
      var isAbstractOrInterface := scriptClazz.isAbstractOrInterface;
      if !isAbstractOrInterface {
        if !scriptClazz.instantiable {
          return None;
        }
        var code := scriptClazz.messageCode;
        if code !in codeMap {
          codeMap := codeMap[code := scriptClazz];
        }
      }
    }
    assert scriptClazzs[..|scriptClazzs|] == scriptClazzs;
    return Some(codeMap);
  }

  // ---------------------------------------------------------------------
  // The provider

  /** The state of an AbstractScriptProvider that the registry touches:
      the life-cycle state, the dynamic code map, and the static
      registrations its superclass answers getStaticScriptClass from. */
  class Provider {
    var state: State
    var codeMap: map<int, ClassInfo>
    const staticScripts: map<int, ClassInfo>

    /** The constructors: fields start as `ready` and empty, then init()
        runs loadAllClass, whose exceptions it catches. `loaded` is the
        outcome of class loading (see LoadAllClass). */
    constructor (staticScripts: map<int, ClassInfo>, loaded: Option<seq<ClassInfo>>)
      ensures this.staticScripts == staticScripts
      ensures state == Loaded
      ensures loaded.Some? && AllInstantiable(ScriptsOf(loaded.value)) ==>
                codeMap == CodeMapOf(ScriptsOf(loaded.value))
      ensures !(loaded.Some? && AllInstantiable(ScriptsOf(loaded.value))) ==> codeMap == map[]
    {
      this.staticScripts := staticScripts;
      state := Ready;
      codeMap := map[];
      new;
      LoadAllClass(loaded);
    }

    /** loadAllClass. `loaded` is what scanning the script source produced:
        None when it threw, otherwise every loaded class in the iteration
        order of the class set. A load already in progress makes it return
        at once; otherwise the state ends as `loaded` whatever happens, and
        the code map is replaced wholesale (clear, then putAll) exactly when
        building the new map succeeded. */
    method LoadAllClass(loaded: Option<seq<ClassInfo>>)
      modifies this
      ensures old(state) == Loading ==> state == Loading && codeMap == old(codeMap)
      ensures old(state) != Loading ==> state == Loaded
      ensures old(state) != Loading && loaded.Some? && AllInstantiable(ScriptsOf(loaded.value)) ==>
                codeMap == CodeMapOf(ScriptsOf(loaded.value))
      ensures !(old(state) != Loading && loaded.Some? && AllInstantiable(ScriptsOf(loaded.value))) ==>
                codeMap == old(codeMap)
    {
      if state == Loading {
        return;
      }
      state := Loading;
      if loaded.Some? {
        var scripts := FindScriptClass(loaded.value);
        var newCodeMap := FindScriptCodeMap(scripts);
        if newCodeMap.Some? {
          codeMap := map[];
          codeMap := codeMap + newCodeMap.value;
        }
      }
      state := Loaded;
    }

    /** getScriptClass: the dynamic entry for `code`, or null. */
    function GetScriptClass(code: int): (r: Option<ClassInfo>)
      reads this
      ensures r.Some? <==> code in codeMap
      ensures r.Some? ==> r.value == codeMap[code]
    {
      Lookup(codeMap, code)
    }

    /** buildInstance: the class it instantiates for `code`. A static
        registration comes first, the dynamic map second; None (null, with
        an error logged) when neither has the code. */
    function BuildInstance(code: int): (r: Option<ClassInfo>)
      reads this
      ensures r.None? <==> code !in staticScripts && code !in codeMap
      ensures code in staticScripts ==> r == Some(staticScripts[code])
      ensures code !in staticScripts && code in codeMap ==> r == Some(codeMap[code])
    {
      var c := Lookup(staticScripts, code);
      if c.Some? then c else GetScriptClass(code)
    }
  }

  /** After a successful load of `all`, a code without a static registration
      builds the first concrete script class of `all` that reports it. */
  lemma BuildAfterLoad(p: Provider, all: seq<ClassInfo>, code: int)
    requires p.codeMap == CodeMapOf(ScriptsOf(all))
    requires code !in p.staticScripts
    ensures p.BuildInstance(code) == FirstWithCode(ScriptsOf(all), code)
  {
    CodeMapOfIsFirst(ScriptsOf(all), code);
  }
}
