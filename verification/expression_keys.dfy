/**
  Expression keys: the VRM 1.0 preset vocabulary and custom names.

  A key is either one of the eighteen presets or a custom name. Its display
  name (`Name`) is the preset's enumeration name (`happy`, `blinkLeft`, ...)
  or the custom name verbatim; sorting and the custom map both go by it.
*/
module ExpressionKeys {
  import opened Wrappers

  datatype Preset =
    | Happy | Angry | Sad | Relaxed | Surprised
    | Aa | Ih | Ou | Ee | Oh
    | Blink | BlinkLeft | BlinkRight
    | LookUp | LookDown | LookLeft | LookRight
    | Neutral

  datatype ExpressionKey = PresetKey(preset: Preset) | CustomKey(customName: string)

  /** The preset's enumeration name, which is also its key's display name. */
  function PresetName(p: Preset): string {
    match p
    case Happy => "happy"
    case Angry => "angry"
    case Sad => "sad"
    case Relaxed => "relaxed"
    case Surprised => "surprised"
    case Aa => "aa"
    case Ih => "ih"
    case Ou => "ou"
    case Ee => "ee"
    case Oh => "oh"
    case Blink => "blink"
    case BlinkLeft => "blinkLeft"
    case BlinkRight => "blinkRight"
    case LookUp => "lookUp"
    case LookDown => "lookDown"
    case LookLeft => "lookLeft"
    case LookRight => "lookRight"
    case Neutral => "neutral"
  }

  /** The key's display name. */
  function Name(k: ExpressionKey): string {
    match k
    case PresetKey(p) => PresetName(p)
    case CustomKey(n) => n
  }

  /**
    The VRM Animation `Preset` class has a field for every preset except the
    four look directions, which that format drives through its look-at node
    instead. The field lookup by name finds nothing for those four.
  */
  predicate HasPresetField(p: Preset) {
    !(p.LookUp? || p.LookDown? || p.LookLeft? || p.LookRight?)
  }

  /** Every preset, in declaration order. */
  const AllPresets: seq<Preset> :=
    [Happy, Angry, Sad, Relaxed, Surprised, Aa, Ih, Ou, Ee, Oh,
     Blink, BlinkLeft, BlinkRight, LookUp, LookDown, LookLeft, LookRight, Neutral]

  lemma AllPresetsComplete(p: Preset)
    ensures p in AllPresets
  {
  }

  /** ASCII lower-casing of one character; every other character is left alone. */
  function LowerChar(c: char): char {
    if 'A' <= c <= 'Z' then (c as int + 32) as char else c
  }

  /** Case-insensitive equality of two names, folding ASCII letters. */
  predicate SameIgnoringCase(a: string, b: string) {
    |a| == |b| && forall i :: 0 <= i < |a| ==> LowerChar(a[i]) == LowerChar(b[i])
  }

  /**
    The lower-cased preset names differ pairwise in length, first or last
    character, so no name matches two presets.
  */
  lemma PresetNamesDistinct(p: Preset, q: Preset, name: string)
    requires SameIgnoringCase(name, PresetName(p)) && SameIgnoringCase(name, PresetName(q))
    ensures p == q
  {
    var a, b := PresetName(p), PresetName(q);
    assert |a| == |b|;
    assert LowerChar(a[0]) == LowerChar(b[0]);
    assert LowerChar(a[|a| - 1]) == LowerChar(b[|b| - 1]);
  }

  /** The first preset of `ps` whose name matches `name` ignoring case. */
  function FindPreset(name: string, ps: seq<Preset>): (r: Option<Preset>)
    ensures r.Some? ==> r.value in ps && SameIgnoringCase(name, PresetName(r.value))
    ensures r.None? ==> forall p :: p in ps ==> !SameIgnoringCase(name, PresetName(p))
  {
    if ps == [] then None
    else if SameIgnoringCase(name, PresetName(ps[0])) then Some(ps[0])
    else FindPreset(name, ps[1..])
  }

  /**
    Case-insensitive parse of a channel name as a preset
    (Enum.TryParse with ignoreCase on the preset names): it succeeds exactly
    when the name equals a preset's name up to ASCII case, and then yields
    that preset.
  */
  function ParsePreset(name: string): (r: Option<Preset>)
    ensures forall p :: r == Some(p) <==> SameIgnoringCase(name, PresetName(p))
  {
    var r := FindPreset(name, AllPresets);
    assert forall p :: r == Some(p) <==> SameIgnoringCase(name, PresetName(p)) by {
      forall p ensures r == Some(p) <==> SameIgnoringCase(name, PresetName(p)) {
        AllPresetsComplete(p);
        if r.Some? && SameIgnoringCase(name, PresetName(p)) {
          PresetNamesDistinct(r.value, p, name);
        }
      }
    }
    r
  }
}
