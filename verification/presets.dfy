/** The encoding preset of `rip.py`: parameters, preferences, encoder
    options, and the `Preset` that collects them. */
module Presets {
  import opened Wrappers
  import opened Strings

  /** A preset parameter. `separator` is `None` when the preset file gives
      none; the constructor's own default is `","`. */
  datatype Parameter = Parameter(
    key: string,
    required: bool,
    multivalued: bool,
    separator: Option<string>)

  /** A preference: a parameter together with its configured text value. */
  datatype Preference = Preference(
    key: string,
    required: bool,
    multivalued: bool,
    separator: Option<string>,
    value: Option<string>)

  /** What `Preference.getvalue` returns: `None`, the text itself, or the
      list its split produced. */
  datatype PrefValue = Absent | Text(text: string) | Items(items: seq<string>)

  /** The exceptions the preset operations raise. */
  datatype PresetError =
    | EmptySeparator            // `str.split("")` raises ValueError
    | NotCallable(name: string) // the local found for a handler cannot be called
    | HandlerUndefined(name: string)
    | KeyError(key: string)
    | NoGetValue(key: string)   // a plain parameter has no `getvalue` attribute

  /** The unsplit value, `None` becoming `Absent`. */
  function Plain(value: Option<string>): (v: PrefValue)
    ensures v.Absent? <==> value.None?
    ensures value.Some? ==> v == Text(value.value)
  {
    if value.None? then Absent else Text(value.value)
  }

  /** `Preference.getvalue`. A multivalued preference with a value is split
      on its separator, on runs of whitespace when the separator is `None`;
      any other preference gives its value unchanged. */
  function PreferenceValue(p: Preference): (r: Result<PrefValue, PresetError>)
    ensures r.Failure? <==> p.multivalued && p.value.Some? && p.separator == Some("")
    ensures r.Failure? ==> r.error == EmptySeparator
    ensures !(p.multivalued && p.value.Some?) ==> r == Success(Plain(p.value))
    ensures r.Success? && p.multivalued && p.value.Some? ==> r.value.Items?
  {
    if p.multivalued && p.value.Some? then
      var text := p.value.value;
      match p.separator
      case None => Success(Items(SplitWhitespace(text)))
      case Some(sep) =>
        if |sep| == 0 then Failure(EmptySeparator)
        else Success(Items(Split(text, sep)))
    else Success(Plain(p.value))
  }

  /** An encoder option: a fixed value, or a handler named to compute one. */
  datatype EncoderOption = EncoderOption(key: string, value: Option<string>, handler: Option<string>)

  /** The local names visible where `Option.getvalue` looks its handler up:
      only the method's own `self`. */
  const GetValueLocals: set<string> := {"self"}

  /** `Option.getvalue`. A named handler is looked up among the method's
      locals; `self` is found but the option cannot be called, and any
      other name is reported as undefined. */
  function OptionValue(o: EncoderOption): (r: Result<Option<string>, PresetError>)
    ensures r.Success? <==> o.handler.None?
    ensures r.Success? ==> r.value == o.value
    ensures o.handler.Some? && o.handler.value !in GetValueLocals ==>
      r == Failure(HandlerUndefined(o.handler.value))
  {
    match o.handler
    case None => Success(o.value)
    case Some(name) =>
      if name in GetValueLocals then Failure(NotCallable(name))
      else Failure(HandlerUndefined(name))
  }

  /** What a generator produced: the items it yielded, then the exception
      that stopped it, if one did. */
  datatype Yielded<T> = Yielded(items: seq<T>, error: Option<PresetError>)

  /** The preset. Options and parameters are lists in insertion order;
      preferences map a key to the value its preference gave. */
  datatype Preset = Preset(
    options: seq<EncoderOption>,
    parameters: seq<Parameter>,
    preferences: map<string, PrefValue>)

  function EmptyPreset(): (p: Preset)
    ensures |p.options| == 0 && |p.parameters| == 0 && |p.preferences| == 0
  {
    Preset([], [], map[])
  }

  /** `addoption`: the option goes at the end. */
  function AddOption(p: Preset, o: EncoderOption): (q: Preset)
    ensures |q.options| == |p.options| + 1 && q.options[|p.options|] == o
    ensures q.options[..|p.options|] == p.options
    ensures q.parameters == p.parameters && q.preferences == p.preferences
  {
    p.(options := p.options + [o])
  }

  /** `addparameter`: the parameter goes at the end. */
  function AddParameter(p: Preset, x: Parameter): (q: Preset)
    ensures |q.parameters| == |p.parameters| + 1 && q.parameters[|p.parameters|] == x
    ensures q.parameters[..|p.parameters|] == p.parameters
    ensures q.options == p.options && q.preferences == p.preferences
  {
    p.(parameters := p.parameters + [x])
  }

  /** `addpreference`: the preference's value is stored under its key,
      replacing an earlier one. If `getvalue` raises, nothing is stored. */
  function AddPreference(p: Preset, pref: Preference): (r: Result<Preset, PresetError>)
    ensures r.Success? <==> PreferenceValue(pref).Success?
    ensures r.Failure? ==> r.error == PreferenceValue(pref).error
    ensures r.Success? ==>
      r.value.options == p.options && r.value.parameters == p.parameters &&
      pref.key in r.value.preferences &&
      r.value.preferences[pref.key] == PreferenceValue(pref).value
    ensures r.Success? ==> forall k :: k != pref.key ==>
      (k in r.value.preferences <==> k in p.preferences)
    ensures r.Success? ==> forall k :: k != pref.key && k in p.preferences ==>
      r.value.preferences[k] == p.preferences[k]
  {
    match PreferenceValue(pref)
    case Failure(e) => Failure(e)
    case Success(v) => Success(p.(preferences := p.preferences[pref.key := v]))
  }

  /** `getpreference`: the stored value, or `KeyError` for a key never added. */
  function GetPreference(p: Preset, key: string): (r: Result<PrefValue, PresetError>)
    ensures r.Failure? <==> key !in p.preferences
    ensures r.Failure? ==> r.error == KeyError(key)
    ensures r.Success? ==> r.value == p.preferences[key]
  {
    if key in p.preferences then Success(p.preferences[key]) else Failure(KeyError(key))
  }

  /** The generator behind `getoptions`: `(key, getvalue())` for each
      option in turn, stopping at the first `getvalue` that raises. */
  function YieldOptions(options: seq<EncoderOption>): (y: Yielded<(string, Option<string>)>)
    ensures |y.items| <= |options|
    ensures y.error.None? <==> |y.items| == |options|
    ensures y.error.Some? ==> options[|y.items|].handler.Some?
  {
    if |options| == 0 then Yielded([], None)
    else Prepend(options[0], YieldOptions(options[1..]))
  }

  /** One step of that generator: the first option's pair followed by what
      the rest yields, or the exception its `getvalue` raises. */
  function Prepend(o: EncoderOption, rest: Yielded<(string, Option<string>)>): Yielded<(string, Option<string>)>
  {
    match OptionValue(o)
    case Failure(e) => Yielded([], Some(e))
    case Success(v) => Yielded([(o.key, v)] + rest.items, rest.error)
  }

  /** `getoptions`. */
  function GetOptions(p: Preset): (y: Yielded<(string, Option<string>)>)
    ensures |y.items| <= |p.options|
    ensures y.error.None? <==> |y.items| == |p.options|
    ensures y.error.Some? ==> p.options[|y.items|].handler.Some?
  {
    YieldOptions(p.options)
  }

  /** `getparameters`: a plain parameter has no `getvalue`, so the generator
      raises at the first parameter and yields nothing. */
  function GetParameters(p: Preset): (y: Yielded<(string, PrefValue)>)
    ensures |y.items| == 0
    ensures y.error.None? <==> |p.parameters| == 0
    ensures y.error.Some? ==> y.error.value == NoGetValue(p.parameters[0].key)
  {
    if |p.parameters| == 0 then Yielded([], None)
    else Yielded([], Some(NoGetValue(p.parameters[0].key)))
  }
}
