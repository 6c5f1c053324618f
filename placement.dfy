/**
 * The placeholder box `addPlaceholderBox` shows when a model file cannot be loaded: its
 * dimensions come from the model's category and its colour hue from the first character
 * of the model's name.
 */
module Placement {
  import opened Wrappers
  import opened Naming

  /** Box dimensions in metres: width (x), height (y), depth (z). */
  datatype Size = Size(width: real, height: real, depth: real)

  /** The size used for a category absent from the `sizes` table: a one-metre cube. */
  const UnitCube: Size := Size(1.0, 1.0, 1.0)

  /** `sizes[modelDef.category] || [1, 1, 1]`. */
  function PlaceholderSize(category: string): (size: Size)
    ensures size.width > 0.0 && size.height > 0.0 && size.depth > 0.0
    ensures category !in {"Seating", "Tables", "Storage", "Bedroom", "Decor"} ==> size == UnitCube
  {
    match category
    case "Seating" => Size(0.8, 0.9, 0.9)
    case "Tables" => Size(1.2, 0.75, 0.7)
    case "Storage" => Size(0.9, 1.8, 0.45)
    case "Bedroom" => Size(1.6, 0.5, 2.0)
    case "Decor" => Size(0.3, 1.5, 0.3)
    case _ => UnitCube
  }

  /** The table, row by row, and the two categories it has no row for. */
  lemma PlaceholderSizes()
    ensures PlaceholderSize("Seating") == Size(0.8, 0.9, 0.9)
    ensures PlaceholderSize("Tables") == Size(1.2, 0.75, 0.7)
    ensures PlaceholderSize("Storage") == Size(0.9, 1.8, 0.45)
    ensures PlaceholderSize("Bedroom") == Size(1.6, 0.5, 2.0)
    ensures PlaceholderSize("Decor") == Size(0.3, 1.5, 0.3)
    ensures PlaceholderSize("Bathroom") == UnitCube && PlaceholderSize(DefaultCategory) == UnitCube
  {
  }

  /**
   * `s.charCodeAt(0)`: the first UTF-16 code unit of `s`, or `None` (NaN) for the empty string.
   * A character outside the Basic Multilingual Plane is stored as a surrogate pair, whose
   * first unit is the high surrogate.
   */
  function CharCodeAt0(s: string): (code: Option<nat>)
    ensures s == [] <==> code.None?
    ensures code.Some? ==> code.value < 0x1_0000
    ensures code.Some? && (s[0] as int) < 0x1_0000 ==> code.value == s[0] as int
    ensures code.Some? && (s[0] as int) >= 0x1_0000 ==> 0xD800 <= code.value < 0xDC00
  {
    if s == [] then None
    else
      var c := s[0] as int;
      if c < 0x1_0000 then Some(c) else Some(0xD800 + (c - 0x1_0000) / 0x400)
  }

  /** `(code * 37) % 360` for a code unit (never negative, so JavaScript's `%` agrees with Dafny's). */
  function HueOfCode(code: nat): nat
  {
    (code * 37) % 360
  }

  /**
   * The hue of the placeholder's `hsl(...)` colour; `None` for an empty name, whose
   * `charCodeAt(0)` is NaN.
   */
  function Hue(name: string): (hue: Option<nat>)
    ensures hue.None? <==> name == []
    ensures hue.Some? ==> hue.value < 360
  {
    var code := CharCodeAt0(name);
    if code.None? then None else Some(HueOfCode(code.value))
  }

  /** 37 is invertible modulo 360 (37 * 253 = 26 * 360 + 1), so the code is recovered from the hue mod 360. */
  lemma HueInverse(code: nat)
    ensures (HueOfCode(code) * 253) % 360 == code % 360
  {
    var h := HueOfCode(code);
    var q := (code * 37) / 360;
    assert code * 37 == 360 * q + h;
    assert h * 253 == code + 360 * (26 * code - 253 * q);
    ModMultiple(code, 26 * code - 253 * q);
  }

  lemma ModMultiple(x: int, k: int)
    ensures (x + 360 * k) % 360 == x % 360
  {
  }

  lemma HueOfCodePeriodic(code: nat)
    ensures HueOfCode(code + 360) == HueOfCode(code)
  {
    ModMultiple(code * 37, 37);
  }

  /** Two code units get the same hue exactly when they agree modulo 360. */
  lemma HueSameIff(a: nat, b: nat)
    ensures HueOfCode(a) == HueOfCode(b) <==> a % 360 == b % 360
  {
    HueInverse(a);
    HueInverse(b);
    if a % 360 == b % 360 {
      var qa, qb := a / 360, b / 360;
      assert a * 37 == b * 37 + 360 * (37 * (qa - qb));
      ModMultiple(b * 37, 37 * (qa - qb));
    }
  }
}
