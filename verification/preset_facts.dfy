/** What the preset operations guarantee when combined. */
module PresetFacts {
  import opened Wrappers
  import opened Strings
  import opened Presets

  /** A multivalued preference with a non-empty separator is split into
      pieces that join back to its value, none holding the separator, one
      more than the separator's occurrences. */
  lemma PreferenceSplit(p: Preference, sep: string)
    requires p.multivalued && p.value.Some? && p.separator == Some(sep) && |sep| > 0
    ensures PreferenceValue(p).Success? && PreferenceValue(p).value.Items?
    ensures var items := PreferenceValue(p).value.items;
      Join(items, sep) == p.value.value &&
      (forall k :: 0 <= k < |items| ==> !Contains(items[k], sep)) &&
      |items| == CountOccurrences(p.value.value, sep) + 1
  {
    var text := p.value.value;
    assert PreferenceValue(p) == Success(Items(Split(text, sep)));
    JoinSplit(text, sep);
    SplitPiecesAvoidSeparator(text, sep);
    SplitCount(text, sep);
  }

  /** A value made by joining pieces with a one-character separator that
      none of them holds is split back into exactly those pieces. */
  lemma PreferenceJoinedItems(p: Preference, pieces: seq<string>, c: char)
    requires p.multivalued && p.separator == Some([c])
    requires p.value == Some(Join(pieces, [c]))
    requires |pieces| >= 1 && forall k :: 0 <= k < |pieces| ==> c !in pieces[k]
    ensures PreferenceValue(p) == Success(Items(pieces))
  {
    SplitJoinChar(pieces, c);
  }

  /** Without a separator the value is split into its whitespace-free words,
      which hold all of its non-whitespace text in order. */
  lemma PreferenceWords(p: Preference)
    requires p.multivalued && p.value.Some? && p.separator.None?
    ensures PreferenceValue(p).Success? && PreferenceValue(p).value.Items?
    ensures var words := PreferenceValue(p).value.items;
      (forall k :: 0 <= k < |words| ==> |words[k]| > 0 && NoSpace(words[k])) &&
      Concat(words) == RemoveSpaces(p.value.value)
  {
    SplitWhitespaceWords(p.value.value);
    SplitWhitespaceKeepsText(p.value.value);
  }

  /** Words joined with single spaces are split back into those words. */
  lemma PreferenceJoinedWords(p: Preference, words: seq<string>)
    requires p.multivalued && p.separator.None? && p.value == Some(Join(words, " "))
    requires forall k :: 0 <= k < |words| ==> |words[k]| > 0 && NoSpace(words[k])
    ensures PreferenceValue(p) == Success(Items(words))
  {
    SplitWhitespaceJoin(words);
  }

  /** Reading a preference back after adding it gives its value; every other
      key reads as before. */
  lemma GetAfterAdd(p: Preset, pref: Preference, key: string)
    requires AddPreference(p, pref).Success?
    ensures key == pref.key ==>
      GetPreference(AddPreference(p, pref).value, key) == PreferenceValue(pref)
    ensures key != pref.key ==>
      GetPreference(AddPreference(p, pref).value, key) == GetPreference(p, key)
  {
  }

  /** Preferences added one after another, as the preset loader does; the
      first `getvalue` that raises stops the loading. */
  function AddPreferences(p: Preset, prefs: seq<Preference>): Result<Preset, PresetError>
    decreases |prefs|
  {
    if |prefs| == 0 then Success(p)
    else
      match AddPreferences(p, prefs[..|prefs| - 1])
      case Failure(e) => Failure(e)
      case Success(q) => AddPreference(q, prefs[|prefs| - 1])
  }

  /** The last preference of the list that has the key, if any. */
  function LastWith(prefs: seq<Preference>, key: string): (r: Option<Preference>)
    ensures r.None? <==> forall i :: 0 <= i < |prefs| ==> prefs[i].key != key
    ensures r.Some? ==> r.value.key == key && r.value in prefs
    decreases |prefs|
  {
    if |prefs| == 0 then None
    else if prefs[|prefs| - 1].key == key then Some(prefs[|prefs| - 1])
    else LastWith(prefs[..|prefs| - 1], key)
  }

  /** Loading succeeds exactly when every preference's `getvalue` does. */
  lemma {:induction false} AddPreferencesSucceeds(p: Preset, prefs: seq<Preference>)
    ensures AddPreferences(p, prefs).Success? <==>
      forall i :: 0 <= i < |prefs| ==> PreferenceValue(prefs[i]).Success?
    decreases |prefs|
  {
    if |prefs| > 0 {
      var init := prefs[..|prefs| - 1];
      AddPreferencesSucceeds(p, init);
      assert forall i :: 0 <= i < |init| ==> init[i] == prefs[i];
    }
  }

  /** After loading, a key reads as the value of the last preference that
      has it, or as it read before loading when none has it. */
  lemma {:induction false} AddPreferencesLastWins(p: Preset, prefs: seq<Preference>, key: string)
    requires AddPreferences(p, prefs).Success?
    ensures var q := AddPreferences(p, prefs).value;
      GetPreference(q, key) ==
        match LastWith(prefs, key)
        case None => GetPreference(p, key)
        case Some(pref) => PreferenceValue(pref)
    decreases |prefs|
  {
    if |prefs| > 0 {
      var init := prefs[..|prefs| - 1];
      var last := prefs[|prefs| - 1];
      AddPreferencesLastWins(p, init, key);
      GetAfterAdd(AddPreferences(p, init).value, last, key);
    }
  }

  /** Loading into an empty preset leaves a key absent exactly when no
      preference of the list has it. */
  lemma LoadedKeys(prefs: seq<Preference>, key: string)
    requires AddPreferences(EmptyPreset(), prefs).Success?
    ensures key in AddPreferences(EmptyPreset(), prefs).value.preferences <==>
      exists i :: 0 <= i < |prefs| && prefs[i].key == key
  {
    AddPreferencesLastWins(EmptyPreset(), prefs, key);
  }

  /** `getoptions` yields the `(key, value)` pairs of the leading options
      that have no handler, in order, and then raises for the first option
      that has one. */
  lemma {:induction false} YieldOptionsYields(options: seq<EncoderOption>)
    ensures var y := YieldOptions(options);
      |y.items| <= |options| &&
      (forall i :: 0 <= i < |y.items| ==>
        options[i].handler.None? && y.items[i] == (options[i].key, options[i].value)) &&
      (y.error.None? <==> |y.items| == |options|) &&
      (y.error.Some? ==>
        options[|y.items|].handler.Some? &&
        Failure(y.error.value) == OptionValue(options[|y.items|]))
    decreases |options|
  {
    if |options| > 0 && OptionValue(options[0]).Success? {
      var rest := options[1..];
      YieldOptionsYields(rest);
      var y, r := YieldOptions(options), YieldOptions(rest);
      assert y.items == [(options[0].key, options[0].value)] + r.items;
      forall i | 0 < i < |y.items|
        ensures y.items[i] == r.items[i - 1] && options[i] == rest[i - 1]
      {
      }
    }
  }

  /** Options added one after another. */
  function AddOptions(p: Preset, options: seq<EncoderOption>): Preset
    decreases |options|
  {
    if |options| == 0 then p
    else AddOption(AddOptions(p, options[..|options| - 1]), options[|options| - 1])
  }

  /** Added options follow the earlier ones in the order given. */
  lemma {:induction false} AddOptionsOrder(p: Preset, options: seq<EncoderOption>)
    ensures AddOptions(p, options).options == p.options + options
    ensures AddOptions(p, options).parameters == p.parameters
    ensures AddOptions(p, options).preferences == p.preferences
    decreases |options|
  {
    if |options| > 0 {
      var init := options[..|options| - 1];
      AddOptionsOrder(p, init);
      assert options == init + [options[|options| - 1]];
    }
  }

  /** Parameters added one after another. */
  function AddParameters(p: Preset, params: seq<Parameter>): Preset
    decreases |params|
  {
    if |params| == 0 then p
    else AddParameter(AddParameters(p, params[..|params| - 1]), params[|params| - 1])
  }

  /** Added parameters follow the earlier ones in the order given. */
  lemma {:induction false} AddParametersOrder(p: Preset, params: seq<Parameter>)
    ensures AddParameters(p, params).parameters == p.parameters + params
    ensures AddParameters(p, params).options == p.options
    ensures AddParameters(p, params).preferences == p.preferences
    decreases |params|
  {
    if |params| > 0 {
      var init := params[..|params| - 1];
      AddParametersOrder(p, init);
      assert params == init + [params[|params| - 1]];
    }
  }

  /** Once parameters are loaded into a preset that had none, `getparameters`
      raises at the first one loaded. */
  lemma GetParametersAfterLoad(p: Preset, params: seq<Parameter>)
    requires |p.parameters| == 0 && |params| > 0
    ensures GetParameters(AddParameters(p, params)) ==
      Yielded([], Some(NoGetValue(params[0].key)))
  {
    AddParametersOrder(p, params);
    assert AddParameters(p, params).parameters[0] == params[0];
  }

  /** The generator over a list that is a concatenation runs over the first
      part and, when that finished without raising, over the second. */
  lemma {:induction false} YieldOptionsAppend(a: seq<EncoderOption>, b: seq<EncoderOption>)
    ensures YieldOptions(a + b) == Resumed(YieldOptions(a), YieldOptions(b))
    decreases |a|
  {
    if |a| == 0 {
      assert a + b == b;
    } else {
      YieldOptionsAppend(a[1..], b);
      YieldOptionsHead(a, b);
      PrependResumed(a[0], YieldOptions(a[1..]), YieldOptions(b));
    }
  }

  /** The generator's output over a second list, when the first finished. */
  function Resumed<T>(first: Yielded<T>, second: Yielded<T>): Yielded<T>
  {
    if first.error.Some? then first else Yielded(first.items + second.items, second.error)
  }

  /** The first step over a concatenation is the first step over its first part. */
  lemma YieldOptionsHead(a: seq<EncoderOption>, b: seq<EncoderOption>)
    requires |a| > 0
    ensures YieldOptions(a + b) == Prepend(a[0], YieldOptions(a[1..] + b))
  {
    assert (a + b)[0] == a[0];
    assert (a + b)[1..] == a[1..] + b;
  }

  lemma PrependResumed(o: EncoderOption, first: Yielded<(string, Option<string>)>, second: Yielded<(string, Option<string>)>)
    ensures Prepend(o, Resumed(first, second)) == Resumed(Prepend(o, first), second)
  {
    if OptionValue(o).Success? && first.error.None? {
      var head := [(o.key, OptionValue(o).value)];
      assert head + (first.items + second.items) == (head + first.items) + second.items;
    }
  }

  /** `getoptions` after `addoption`: the earlier pairs, then the new
      option's pair or its exception, unless an earlier option already
      raised. */
  lemma GetOptionsAfterAdd(p: Preset, o: EncoderOption)
    ensures var y := GetOptions(p);
      GetOptions(AddOption(p, o)) ==
        if y.error.Some? then y
        else match OptionValue(o)
          case Success(v) => Yielded(y.items + [(o.key, v)], None)
          case Failure(e) => Yielded(y.items, Some(e))
  {
    YieldOptionsAppend(p.options, [o]);
    assert [o][1..] == [];
  }
}
