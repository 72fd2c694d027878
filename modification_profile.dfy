/**
 * The modification profile of a search: the names of the fixed, variable
 * and refinement modifications, a back-up of the modifications themselves
 * by name, and a colour per modification name.
 */
module Modifications {
  import opened JavaText

  datatype Color = Color(red: int, green: int, blue: int)

  /** A post-translational modification; the profile only uses its name. */
  datatype Ptm = Ptm(name: string, mass: real)

  // ---------------------------------------------------------------------
  // Name lists.

  predicate NoDuplicates(list: seq<string>) {
    forall i, j :: 0 <= i < j < |list| ==> list[i] != list[j]
  }

  /** The list after adding `name` unless it is already there. */
  function Added(list: seq<string>, name: string): seq<string> {
    if name in list then list else list + [name]
  }

  /**
   * Adding keeps the list free of duplicates, ends with the name in the
   * list, keeps every earlier entry where it was, and a second add
   * changes nothing.
   */
  lemma AddedProps(list: seq<string>, name: string)
    ensures name in Added(list, name)
    ensures NoDuplicates(list) ==> NoDuplicates(Added(list, name))
    ensures Added(list, name)[..|list|] == list
    ensures Added(Added(list, name), name) == Added(list, name)
    ensures forall x :: x in Added(list, name) <==> x in list || x == name
  {
  }

  /** The list without any occurrence of `name`, the others in their order. */
  function Without(list: seq<string>, name: string): seq<string> {
    if |list| == 0 then []
    else (if list[0] == name then [] else [list[0]]) + Without(list[1..], name)
  }

  /** `ArrayList.remove(Object)`: the list less the first occurrence of `name`. */
  function RemoveFirst(list: seq<string>, name: string): (r: seq<string>)
    ensures name in list ==> |r| == |list| - 1
    ensures name !in list ==> r == list
  {
    if |list| == 0 then []
    else if list[0] == name then list[1..]
    else [list[0]] + RemoveFirst(list[1..], name)
  }

  lemma {:induction false} RemoveFirstWithout(list: seq<string>, name: string)
    ensures Without(RemoveFirst(list, name), name) == Without(list, name)
    decreases |list|
  {
    if |list| > 0 && list[0] != name {
      RemoveFirstWithout(list[1..], name);
      assert ([list[0]] + RemoveFirst(list[1..], name))[1..] == RemoveFirst(list[1..], name);
    }
  }

  lemma {:induction false} WithoutAbsent(list: seq<string>, name: string)
    requires name !in list
    ensures Without(list, name) == list
    decreases |list|
  {
    if |list| > 0 {
      WithoutAbsent(list[1..], name);
    }
  }

  /** Removal distributes over concatenation, so the remaining names keep their relative order. */
  lemma {:induction false} WithoutConcat(a: seq<string>, b: seq<string>, name: string)
    ensures Without(a + b, name) == Without(a, name) + Without(b, name)
    decreases |a|
  {
    if |a| == 0 {
      assert a + b == b;
    } else {
      WithoutConcat(a[1..], b, name);
      var head := if a[0] == name then [] else [a[0]];
      assert (a + b)[0] == a[0] && (a + b)[1..] == a[1..] + b;
      assert Without(a + b, name) == head + (Without(a[1..], name) + Without(b, name));
      assert Without(a, name) == head + Without(a[1..], name);
    }
  }

  /** After removal the name is gone and every other name occurs as often as before. */
  lemma {:induction false} WithoutCounts(list: seq<string>, name: string)
    ensures name !in Without(list, name)
    ensures multiset(Without(list, name)) == multiset(list)[name := 0]
    decreases |list|
  {
    if |list| > 0 {
      WithoutCounts(list[1..], name);
      assert list == [list[0]] + list[1..];
    }
  }

  /** The value a map holds for a key, or `None` (Java's null). */
  function Lookup<V>(m: map<string, V>, key: string): (r: Option<V>)
    ensures r.Some? <==> key in m
    ensures r.Some? ==> r.value == m[key]
  {
    if key in m then Some(m[key]) else None
  }

  /** Storing a value makes it the one found under its key and leaves the other keys alone. */
  lemma LookupAfterPut<V>(m: map<string, V>, key: string, v: V, other: string)
    ensures Lookup(m[key := v], key) == Some(v)
    ensures other != key ==> Lookup(m[key := v], other) == Lookup(m, other)
  {
  }

  // ---------------------------------------------------------------------
  // The profile.

  class ModificationProfile {
    /** The retired name mapping of older versions, read only by the compatibility check. */
    var modificationNames: map<string, string>
    var fixedModifications: Option<seq<string>>
    var variableModifications: Option<seq<string>>
    var refinementModifications: seq<string>
    var colors: map<string, Color>
    var backUp: Option<map<string, Ptm>>

    /** The lists and the back-up exist; only an object of an older version can lack them. */
    predicate Valid()
      reads this
    {
      fixedModifications.Some? && variableModifications.Some? && backUp.Some?
    }

    constructor ()
      ensures Valid()
      ensures fixedModifications == Some([]) && variableModifications == Some([]) && refinementModifications == []
      ensures modificationNames == map[] && colors == map[] && backUp == Some(map[])
    {
      modificationNames := map[];
      fixedModifications := Some([]);
      variableModifications := Some([]);
      refinementModifications := [];
      colors := map[];
      backUp := Some(map[]);
    }

    /** Fixed, then variable, then refinement modification names. */
    method GetAllModifications() returns (result: seq<string>)
      requires Valid()
      ensures result == fixedModifications.value + variableModifications.value + refinementModifications
      ensures forall x :: x in result <==>
        x in fixedModifications.value || x in variableModifications.value || x in refinementModifications
    {
      result := [];
      result := result + fixedModifications.value;
      result := result + variableModifications.value;
      result := result + refinementModifications;
    }

    /** Variable, then refinement modification names. */
    method GetAllNotFixedModifications() returns (result: seq<string>)
      requires Valid()
      ensures result == variableModifications.value + refinementModifications
      ensures fixedModifications.value + result == fixedModifications.value + variableModifications.value + refinementModifications
    {
      result := [];
      result := result + variableModifications.value;
      result := result + refinementModifications;
    }

    function GetColor(modification: string): (r: Option<Color>)
      reads this
      ensures r.Some? <==> modification in colors
      ensures r.Some? ==> r.value == colors[modification]
    {
      Lookup(colors, modification)
    }

    method SetColor(expectedModification: string, color: Color)
      modifies this
      ensures colors == old(colors)[expectedModification := color]
      ensures GetColor(expectedModification) == Some(color)
      ensures forall m :: m != expectedModification ==> GetColor(m) == old(GetColor(m))
      ensures fixedModifications == old(fixedModifications) && variableModifications == old(variableModifications)
      ensures refinementModifications == old(refinementModifications) && backUp == old(backUp)
      ensures modificationNames == old(modificationNames)
    {
      colors := colors[expectedModification := color];
    }

    function GetPtm(modName: string): (r: Option<Ptm>)
      requires Valid()
      reads this
      ensures r.Some? <==> modName in backUp.value
      ensures r.Some? ==> r.value == backUp.value[modName]
    {
      Lookup(backUp.value, modName)
    }

    method AddVariableModification(modification: Ptm)
      requires Valid()
      modifies this
      ensures Valid()
      ensures variableModifications.value == Added(old(variableModifications.value), modification.name)
      ensures backUp.value == old(backUp.value)[modification.name := modification]
      ensures GetPtm(modification.name) == Some(modification)
      ensures fixedModifications == old(fixedModifications) && refinementModifications == old(refinementModifications)
      ensures colors == old(colors) && modificationNames == old(modificationNames)
    {
      var modName := modification.name;
      if modName !in variableModifications.value {
        variableModifications := Some(variableModifications.value + [modName]);
      }
      backUp := Some(backUp.value[modName := modification]);
    }

    method AddRefinementModification(modification: Ptm)
      requires Valid()
      modifies this
      ensures Valid()
      ensures refinementModifications == Added(old(refinementModifications), modification.name)
      ensures backUp.value == old(backUp.value)[modification.name := modification]
      ensures GetPtm(modification.name) == Some(modification)
      ensures fixedModifications == old(fixedModifications) && variableModifications == old(variableModifications)
      ensures colors == old(colors) && modificationNames == old(modificationNames)
    {
      var modName := modification.name;
      if modName !in refinementModifications {
        refinementModifications := refinementModifications + [modName];
      }
      backUp := Some(backUp.value[modName := modification]);
    }

    method AddFixedModification(modification: Ptm)
      requires Valid()
      modifies this
      ensures Valid()
      ensures fixedModifications.value == Added(old(fixedModifications.value), modification.name)
      ensures backUp.value == old(backUp.value)[modification.name := modification]
      ensures GetPtm(modification.name) == Some(modification)
      ensures variableModifications == old(variableModifications) && refinementModifications == old(refinementModifications)
      ensures colors == old(colors) && modificationNames == old(modificationNames)
    {
      var modName := modification.name;
      if modName !in fixedModifications.value {
        fixedModifications := Some(fixedModifications.value + [modName]);
      }
      backUp := Some(backUp.value[modName := modification]);
    }

    /**
     * Brings an object of an older version up to date: a missing fixed
     * list or back-up becomes empty. A missing variable list is never
     * created: copying the retired names into it fails (`failed`, Java's
     * NullPointerException) as soon as there is one name to copy, after
     * the fixed list was repaired and before the back-up is.
     */
    method CompatibilityCheck() returns (failed: bool)
      modifies this
      ensures failed <==> old(variableModifications).None? && |old(modificationNames).Values| > 0
      ensures fixedModifications == if old(fixedModifications).None? then Some([]) else old(fixedModifications)
      ensures variableModifications == old(variableModifications)
      ensures !failed ==> backUp == if old(backUp).None? then Some(map[]) else old(backUp)
      ensures failed ==> backUp == old(backUp)
      ensures !failed && variableModifications.Some? ==> Valid()
      ensures refinementModifications == old(refinementModifications) && colors == old(colors)
      ensures modificationNames == old(modificationNames)
    {
      failed := false;
      if fixedModifications.None? {
        fixedModifications := Some([]);
      }
      if variableModifications.None? {
        if |modificationNames.Values| > 0 {
          failed := true;
          return;
        }
      }
      if backUp.None? {
        backUp := Some(map[]);
      }
    }

    method RemoveVariableModification(modificationName: string)
      requires Valid()
      modifies this
      ensures Valid()
      ensures variableModifications.value == Without(old(variableModifications.value), modificationName)
      ensures modificationName !in variableModifications.value
      ensures fixedModifications == old(fixedModifications) && refinementModifications == old(refinementModifications)
      ensures backUp == old(backUp) && colors == old(colors) && modificationNames == old(modificationNames)
    {
      var list := variableModifications.value;
      while modificationName in list
        invariant Without(list, modificationName) == Without(old(variableModifications.value), modificationName)
        modifies {}
        decreases |list|
      {
        RemoveFirstWithout(list, modificationName);
        list := RemoveFirst(list, modificationName);
      }
      WithoutAbsent(list, modificationName);
      variableModifications := Some(list);
    }

    method RemoveFixedModification(modificationName: string)
      requires Valid()
      modifies this
      ensures Valid()
      ensures fixedModifications.value == Without(old(fixedModifications.value), modificationName)
      ensures modificationName !in fixedModifications.value
      ensures variableModifications == old(variableModifications) && refinementModifications == old(refinementModifications)
      ensures backUp == old(backUp) && colors == old(colors) && modificationNames == old(modificationNames)
    {
      var list := fixedModifications.value;
      while modificationName in list
        invariant Without(list, modificationName) == Without(old(fixedModifications.value), modificationName)
        modifies {}
        decreases |list|
      {
        RemoveFirstWithout(list, modificationName);
        list := RemoveFirst(list, modificationName);
      }
      WithoutAbsent(list, modificationName);
      fixedModifications := Some(list);
    }

    method RemoveRefinementModification(modificationName: string)
      requires Valid()
      modifies this
      ensures Valid()
      ensures refinementModifications == Without(old(refinementModifications), modificationName)
      ensures modificationName !in refinementModifications
      ensures fixedModifications == old(fixedModifications) && variableModifications == old(variableModifications)
      ensures backUp == old(backUp) && colors == old(colors) && modificationNames == old(modificationNames)
    {
      var list := refinementModifications;
      while modificationName in list
        invariant Without(list, modificationName) == Without(old(refinementModifications), modificationName)
        modifies {}
        decreases |list|
      {
        RemoveFirstWithout(list, modificationName);
        list := RemoveFirst(list, modificationName);
      }
      WithoutAbsent(list, modificationName);
      refinementModifications := list;
    }
  }
}
