/** `taskTypeColors.ts`: the lookup from a task type's name to its colour. */
module TaskTypeColors {
  import opened Wrappers
  import opened Store

  /** The one name a plain JavaScript object does not take as an own key: assigning a string to
      it goes to the inherited `__proto__` setter, which ignores values that are not objects. */
  const ProtoKey: string := "__proto__"

  /** The names of the types. */
  function NamesOf(types: seq<TaskTypeRow>): set<string> {
    set i | 0 <= i < |types| :: types[i].name
  }

  /** The type at index `j` is the last one with its name. */
  predicate LastWithName(types: seq<TaskTypeRow>, j: int) {
    0 <= j < |types| && forall k :: j < k < |types| ==> types[k].name != types[j].name
  }

  /** The names of a list are those of all but its last type, plus the last one's. */
  lemma NamesOfSnoc(types: seq<TaskTypeRow>)
    requires |types| > 0
    ensures NamesOf(types) == NamesOf(types[..|types| - 1]) + {types[|types| - 1].name}
  {
    var init := types[..|types| - 1];
    forall n ensures n in NamesOf(types) <==> n in NamesOf(init) + {types[|types| - 1].name} {
      if n in NamesOf(types) {
        var i :| 0 <= i < |types| && types[i].name == n;
        if i < |types| - 1 { assert init[i].name == n; }
      }
      if n in NamesOf(init) {
        var i :| 0 <= i < |init| && init[i].name == n;
        assert types[i].name == n;
      }
    }
  }

  /** The lookup as intended: `map[t.name] = t.color` for each type in order, into a map that takes
      every name as a key. A later type overrides an earlier one with the same name. */
  function ColorMap(types: seq<TaskTypeRow>): (m: map<string, string>)
    ensures m.Keys == NamesOf(types)
    ensures |m| <= |types|
  {
    if |types| == 0 then map[]
    else
      var t := types[|types| - 1];
      var m := ColorMap(types[..|types| - 1]);
      NamesOfSnoc(types);
      assert m[t.name := t.color].Keys == m.Keys + {t.name};
      m[t.name := t.color]
  }

  /** `buildTaskTypeColorMap` as written, on a plain object: every assignment but those to
      `__proto__` lands, so the result is the intended lookup without that key. */
  function BuildTaskTypeColorMap(types: seq<TaskTypeRow>): (m: map<string, string>)
    ensures m.Keys == NamesOf(types) - {ProtoKey}
    ensures forall n :: n in m ==> n in ColorMap(types) && m[n] == ColorMap(types)[n]
  {
    ColorMap(types) - {ProtoKey}
  }

  /** Each name maps to the colour of the last type with that name. */
  lemma {:induction false} ColorMapLastWins(types: seq<TaskTypeRow>, j: int)
    requires LastWithName(types, j)
    ensures types[j].name in ColorMap(types) && ColorMap(types)[types[j].name] == types[j].color
  {
    var init := types[..|types| - 1];
    if j < |types| - 1 {
      assert types[|types| - 1].name != types[j].name;
      assert init[j] == types[j];
      assert LastWithName(init, j) by {
        forall k | j < k < |init| ensures init[k].name != init[j].name {
          assert init[k] == types[k];
        }
      }
      ColorMapLastWins(init, j);
    }
  }

  /** With unique names (as `getTaskTypes` yields on a well-formed store) every type's colour is
      the one looked up under its name. */
  lemma ColorMapUniqueNames(types: seq<TaskTypeRow>)
    requires TaskTypeNamesUnique(types)
    ensures forall i :: 0 <= i < |types| ==> ColorMap(types)[types[i].name] == types[i].color
    ensures |ColorMap(types)| == |types|
  {
    forall i | 0 <= i < |types| ensures ColorMap(types)[types[i].name] == types[i].color {
      ColorMapLastWins(types, i);
    }
    UniqueNamesCount(types);
  }

  lemma {:induction false} UniqueNamesCount(types: seq<TaskTypeRow>)
    requires TaskTypeNamesUnique(types)
    ensures |NamesOf(types)| == |types|
  {
    if |types| > 0 {
      var init := types[..|types| - 1];
      var t := types[|types| - 1];
      assert TaskTypeNamesUnique(init);
      UniqueNamesCount(init);
      NamesOfSnoc(types);
      assert t.name !in NamesOf(init) by {
        forall i | 0 <= i < |init| ensures init[i].name != t.name {
          assert init[i] == types[i];
        }
      }
    }
  }

  /** A type named `__proto__` is missing from the lookup as written, though the intended lookup
      has it. */
  lemma ProtoNameDropped()
    ensures var types := [TaskTypeRow(0, ProtoKey, DefaultColor, 0, 0, None)];
      && ProtoKey !in BuildTaskTypeColorMap(types)
      && ProtoKey in ColorMap(types)
  {
    var types := [TaskTypeRow(0, ProtoKey, DefaultColor, 0, 0, None)];
    assert types[0].name == ProtoKey;
  }
}
