/**
 * Catalog naming: a display name from an asset file name (`fileToName`) and the keyword
 * heuristics that give a name its icon (`ICON_MAP`, `nameToIcon`) and its category
 * (`CATEGORY_MAP`, `nameToCategory`).
 */
module Naming {
  import opened Text

  // ---------------------------------------------------------------- fileToName

  /** The regular expression `/\.glb$/i` matches `s`. */
  predicate HasGlbSuffix(s: string)
  {
    4 <= |s| && s[|s| - 4] == '.' && LowerChar(s[|s| - 3]) == 'g'
    && LowerChar(s[|s| - 2]) == 'l' && LowerChar(s[|s| - 1]) == 'b'
  }

  /** `.replace(/\.glb$/i, '')` */
  function StripGlb(s: string): string
  {
    if HasGlbSuffix(s) then s[..|s| - 4] else s
  }

  /** `.replace(/[-_]/g, ' ')` */
  function DashesToSpaces(s: string): string
  {
    seq(|s|, i requires 0 <= i < |s| => if s[i] == '-' || s[i] == '_' then ' ' else s[i])
  }

  /** `/\b\w/` matches at index `i` of `s`: a word character not preceded by one. */
  predicate StartsWord(s: string, i: int)
    requires 0 <= i < |s|
  {
    IsWordChar(s[i]) && (i == 0 || !IsWordChar(s[i - 1]))
  }

  /** `.replace(/\b\w/g, c => c.toUpperCase())` */
  function CapitalizeWords(s: string): string
  {
    seq(|s|, i requires 0 <= i < |s| => if StartsWord(s, i) then UpperChar(s[i]) else s[i])
  }

  /** `fileToName`: `sofa_chair.glb` becomes `Sofa Chair`. */
  function FileToName(filename: string): (name: string)
    ensures |name| == if HasGlbSuffix(filename) then |filename| - 4 else |filename|
    ensures forall i :: 0 <= i < |name| ==> name[i] != '-' && name[i] != '_'
  {
    CapitalizeWords(DashesToSpaces(StripGlb(filename)))
  }

  /** Upper-casing keeps a character a word character and keeps a non-word character as it is. */
  lemma UpperCharWordChar(c: char)
    ensures IsWordChar(UpperChar(c)) == IsWordChar(c)
    ensures !IsWordChar(c) ==> UpperChar(c) == c
    ensures IsAsciiLetter(UpperChar(c)) == IsAsciiLetter(c)
  {
  }

  /** Capitalising does not move word boundaries. */
  lemma {:induction false} CapitalizeKeepsWordStarts(s: string, i: int)
    requires 0 <= i < |s|
    ensures |CapitalizeWords(s)| == |s|
    ensures StartsWord(CapitalizeWords(s), i) == StartsWord(s, i)
  {
    UpperCharWordChar(s[i]);
    if 0 < i {
      UpperCharWordChar(s[i - 1]);
    }
  }

  /**
   * Character by character, the name is the file name with `-` and `_` made spaces, every
   * character that starts a word of the name upper-cased, and every other character as it was.
   */
  lemma {:induction false} FileToNameCharacters(filename: string)
    ensures var name := FileToName(filename);
      forall i :: 0 <= i < |name| ==>
        name[i] == if filename[i] == '-' || filename[i] == '_' then ' '
                   else if StartsWord(name, i) then UpperChar(filename[i])
                   else filename[i]
  {
    var t := DashesToSpaces(StripGlb(filename));
    var name := FileToName(filename);
    forall i | 0 <= i < |name|
      ensures name[i] == if filename[i] == '-' || filename[i] == '_' then ' '
                         else if StartsWord(name, i) then UpperChar(filename[i])
                         else filename[i]
    {
      CapitalizeKeepsWordStarts(t, i);
      UpperCharWordChar(t[i]);
    }
  }

  /** Every ASCII letter that starts a word of the name is upper-case. */
  lemma {:induction false} FileToNameCapitalizesWords(filename: string)
    ensures var name := FileToName(filename);
      forall i :: 0 <= i < |name| && StartsWord(name, i) && IsAsciiLetter(name[i]) ==>
        'A' <= name[i] <= 'Z'
  {
    var t := DashesToSpaces(StripGlb(filename));
    var name := FileToName(filename);
    forall i | 0 <= i < |name| && StartsWord(name, i) && IsAsciiLetter(name[i])
      ensures 'A' <= name[i] <= 'Z'
    {
      CapitalizeKeepsWordStarts(t, i);
    }
  }

  /** A name that does not itself end in `.glb` is a fixed point of `fileToName`. */
  lemma {:induction false} FileToNameIdempotent(filename: string)
    requires !HasGlbSuffix(FileToName(filename))
    ensures FileToName(FileToName(filename)) == FileToName(filename)
  {
    var t := DashesToSpaces(StripGlb(filename));
    var name := FileToName(filename);
    assert DashesToSpaces(name) == name;
    forall i | 0 <= i < |name| ensures CapitalizeWords(name)[i] == name[i] {
      CapitalizeKeepsWordStarts(t, i);
    }
  }

  lemma FileToNameExample()
    ensures FileToName("sofa_chair.glb") == "Sofa Chair"
  {
    var t := DashesToSpaces(StripGlb("sofa_chair.glb"));
    assert StripGlb("sofa_chair.glb") == "sofa_chair";
    assert t == "sofa chair";
    forall i | 0 <= i < |t| ensures StartsWord(t, i) <==> i == 0 || i == 5 {
    }
  }

  // ---------------------------------------------------------- keyword tables

  /** One row of `ICON_MAP` or `CATEGORY_MAP`: keywords and the value they select. */
  datatype Rule = Rule(keywords: seq<string>, value: string)

  const DefaultIcon: string := "\U{1F4E6}"

  /** `ICON_MAP`, row for row. */
  const IconRules: seq<Rule> := [
    Rule(["sofa", "couch"], "\U{1F6CB}"),
    Rule(["chair", "stool", "seat", "bench"], "\U{1FA91}"),
    Rule(["bed", "mattress"], "\U{1F6CF}"),
    Rule(["table", "desk", "counter"], "\U{1FAB5}"),
    Rule(["shelf", "bookcase", "bookshelf"], "\U{1F4DA}"),
    Rule(["wardrobe", "closet", "cabinet", "dresser"], "\U{1F5C4}"),
    Rule(["lamp", "light", "sconce"], "\U{1F4A1}"),
    Rule(["plant", "tree", "flower"], "\U{1F33F}"),
    Rule(["tv", "television", "screen", "stand"], "\U{1F4FA}"),
    Rule(["door"], "\U{1F6AA}"),
    Rule(["nightstand", "bedside"], "\U{1F56F}"),
    Rule(["rug", "carpet"], "\U{1F7EB}"),
    Rule(["mirror"], "\U{1FA9E}"),
    Rule(["picture", "frame", "art"], "\U{1F5BC}"),
    Rule(["curtain", "blind"], "\U{1FA9F}"),
    Rule(["bath", "tub", "toilet", "sink"], "\U{1F6C1}")
  ]

  const DefaultCategory: string := "Other"

  /** `CATEGORY_MAP`, row for row. */
  const CategoryRules: seq<Rule> := [
    Rule(["sofa", "couch", "chair", "stool", "bench", "seat"], "Seating"),
    Rule(["bed", "mattress", "nightstand", "bedside"], "Bedroom"),
    Rule(["table", "desk", "counter"], "Tables"),
    Rule(["shelf", "bookcase", "wardrobe", "closet", "cabinet", "dresser"], "Storage"),
    Rule(["bath", "tub", "toilet", "sink"], "Bathroom"),
    Rule(["lamp", "light", "plant", "tree", "tv", "rug", "mirror", "picture", "frame", "curtain", "blind"], "Decor")
  ]

  const AllCategories: set<string> :=
    {"Seating", "Bedroom", "Tables", "Storage", "Bathroom", "Decor", "Other"}

  /** `keywords.some(k => lower.includes(k))` */
  predicate RuleMatches(rule: Rule, lower: string)
  {
    exists k | k in rule.keywords :: Contains(lower, k)
  }

  /** Row `i` matches and no earlier row does. */
  predicate IsFirstMatch(rules: seq<Rule>, lower: string, i: int)
  {
    0 <= i < |rules| && RuleMatches(rules[i], lower)
    && forall j :: 0 <= j < i ==> !RuleMatches(rules[j], lower)
  }

  predicate NoRuleMatches(rules: seq<Rule>, lower: string)
  {
    forall j :: 0 <= j < |rules| ==> !RuleMatches(rules[j], lower)
  }

  /** The first-match table lookup that `nameToIcon` and `nameToCategory` perform. */
  function Classify(rules: seq<Rule>, lower: string, default: string): (r: string)
    ensures forall i :: IsFirstMatch(rules, lower, i) ==> r == rules[i].value
    ensures NoRuleMatches(rules, lower) ==> r == default
    ensures r == default || exists i :: 0 <= i < |rules| && r == rules[i].value
  {
    if rules == [] then default
    else if RuleMatches(rules[0], lower) then rules[0].value
    else
      var r := Classify(rules[1..], lower, default);
      assert forall i :: IsFirstMatch(rules, lower, i) ==> IsFirstMatch(rules[1..], lower, i - 1);
      r
  }

  function IconOf(name: string): string
  {
    Classify(IconRules, Lower(name), DefaultIcon)
  }

  function CategoryOf(name: string): (category: string)
    ensures category in AllCategories
  {
    assert forall i :: 0 <= i < |CategoryRules| ==> CategoryRules[i].value in AllCategories;
    Classify(CategoryRules, Lower(name), DefaultCategory)
  }

  /** `nameToIcon`: the icon of the first `ICON_MAP` row with a keyword in the lower-cased name. */
  method NameToIcon(name: string) returns (icon: string)
    ensures icon == IconOf(name)
  {
    var lower := Lower(name);
    for i := 0 to |IconRules|
      invariant forall j :: 0 <= j < i ==> !RuleMatches(IconRules[j], lower)
    {
      if RuleMatches(IconRules[i], lower) {
        return IconRules[i].value;
      }
    }
    return DefaultIcon;
  }

  /** `nameToCategory`: the category of the first `CATEGORY_MAP` row with a keyword in the lower-cased name. */
  method NameToCategory(name: string) returns (category: string)
    ensures category == CategoryOf(name)
  {
    var lower := Lower(name);
    for i := 0 to |CategoryRules|
      invariant forall j :: 0 <= j < i ==> !RuleMatches(CategoryRules[j], lower)
    {
      if RuleMatches(CategoryRules[i], lower) {
        return CategoryRules[i].value;
      }
    }
    return DefaultCategory;
  }

  /** Icon and category depend on the name only through its lower-cased form. */
  lemma {:induction false} ClassifyIgnoresCase(name: string)
    ensures IconOf(Lower(name)) == IconOf(name)
    ensures CategoryOf(Lower(name)) == CategoryOf(name)
  {
    LowerIdempotent(name);
  }

  /** A keyword with a character that the name lacks does not occur in the name. */
  lemma MissingCharExcludes(lower: string, k: string, c: char)
    requires c in k && c !in lower
    ensures !Contains(lower, k)
  {
    ContainsIff(lower, k);
  }

  /**
   * Every character of `lower` is among `letters`, and `absent[m]` is a character of keyword `m`
   * that is not, so no keyword of the row occurs in `lower`.
   */
  lemma RuleExcluded(rule: Rule, lower: string, letters: string, absent: string)
    requires forall i :: 0 <= i < |lower| ==> lower[i] in letters
    requires |absent| == |rule.keywords|
    requires forall m :: 0 <= m < |absent| ==> absent[m] in rule.keywords[m] && absent[m] !in letters
    ensures !RuleMatches(rule, lower)
  {
    forall k | k in rule.keywords ensures !Contains(lower, k) {
      var m :| 0 <= m < |rule.keywords| && rule.keywords[m] == k;
      MissingCharExcludes(lower, k, absent[m]);
    }
  }

  /** The lookup returns the value of the first matching row. */
  lemma FirstMatchValue(rules: seq<Rule>, lower: string, default: string, i: int)
    requires IsFirstMatch(rules, lower, i)
    ensures Classify(rules, lower, default) == rules[i].value
  {
  }

  /** When some row matches, there is a first one. */
  lemma {:induction false} FirstMatchExists(rules: seq<Rule>, lower: string, j: int)
    requires 0 <= j < |rules| && RuleMatches(rules[j], lower)
    ensures exists i :: IsFirstMatch(rules, lower, i)
    decreases j
  {
    if exists k :: 0 <= k < j && RuleMatches(rules[k], lower) {
      var k :| 0 <= k < j && RuleMatches(rules[k], lower);
      FirstMatchExists(rules, lower, k);
    } else {
      assert IsFirstMatch(rules, lower, j);
    }
  }

  /** The lookup's value is the default or the value of the first matching row. */
  lemma ClassifyCases(rules: seq<Rule>, lower: string, default: string)
    ensures NoRuleMatches(rules, lower) ==> Classify(rules, lower, default) == default
    ensures !NoRuleMatches(rules, lower) ==>
      exists i :: IsFirstMatch(rules, lower, i) && Classify(rules, lower, default) == rules[i].value
  {
    if !NoRuleMatches(rules, lower) {
      var j :| 0 <= j < |rules| && RuleMatches(rules[j], lower);
      FirstMatchExists(rules, lower, j);
    }
  }

  /** A part of an occurring keyword occurs too. */
  lemma ContainsPart(s: string, k: string, a: nat, b: nat)
    requires a <= b <= |k| && Contains(s, k)
    ensures Contains(s, k[a..b])
  {
    ContainsIff(s, k);
    var i: nat :| OccursAt(s, k, i);
    forall t | 0 <= t < b - a ensures s[i + a..i + b][t] == k[a..b][t] {
      assert s[i..i + |k|][a + t] == k[a + t];
    }
    assert OccursAt(s, k[a..b], i + a);
    ContainsIff(s, k[a..b]);
  }

  /** A name with a keyword of the `nightstand` row contains `bed` or `stand`, keywords of earlier rows. */
  lemma NightstandRowShadowed(lower: string)
    requires RuleMatches(IconRules[10], lower)
    ensures RuleMatches(IconRules[2], lower) || RuleMatches(IconRules[8], lower)
  {
    var k :| k in IconRules[10].keywords && Contains(lower, k);
    if k == "nightstand" {
      ContainsPart(lower, k, 5, 10);
      assert k[5..10] == "stand" && "stand" in IconRules[8].keywords;
    } else {
      ContainsPart(lower, k, 0, 3);
      assert k[0..3] == "bed" && "bed" in IconRules[2].keywords;
    }
  }

  /**
   * The nightstand icon of `ICON_MAP` is never returned: every name that has one of its
   * keywords is caught by the bed row or the television row first.
   */
  lemma NightstandIconUnreachable(name: string)
    ensures IconOf(name) != "\U{1F56F}"
  {
    var lower := Lower(name);
    ClassifyCases(IconRules, lower, DefaultIcon);
    if !NoRuleMatches(IconRules, lower) {
      var i :| IsFirstMatch(IconRules, lower, i) && IconOf(name) == IconRules[i].value;
      if i == 10 {
        NightstandRowShadowed(lower);
        assert false;
      }
      IconValues(i);
    }
  }

  lemma IconValues(i: int)
    requires 0 <= i < |IconRules| && i != 10
    ensures IconRules[i].value != "\U{1F56F}"
  {
  }

  /** Earlier rows win: "Nightstand" contains `stand` of the television row before the nightstand row. */
  lemma NightstandIcon()
    ensures IconOf("Nightstand") == "\U{1F4FA}"
  {
    var lower := Lower("Nightstand");
    assert lower == "nightstand";
    TelevisionRowFirst(lower);
    FirstMatchValue(IconRules, lower, DefaultIcon, 8);
    assert IconRules[8].value == "\U{1F4FA}";
  }

  lemma TelevisionRowFirst(lower: string)
    requires |lower| == 10 && lower[5..] == "stand"
    requires forall i :: 0 <= i < |lower| ==> lower[i] in "nightsad"
    ensures IsFirstMatch(IconRules, lower, 8)
  {
    forall j | 0 <= j < 8 ensures !RuleMatches(IconRules[j], lower) {
      if j < 4 {
        FirstIconRowsExcluded(lower, j);
      } else {
        LaterIconRowsExcluded(lower, j);
      }
    }
    ContainsIff(lower, "stand");
    assert OccursAt(lower, "stand", 5);
  }

  lemma FirstIconRowsExcluded(lower: string, j: int)
    requires forall i :: 0 <= i < |lower| ==> lower[i] in "nightsad"
    requires 0 <= j < 4
    ensures !RuleMatches(IconRules[j], lower)
  {
    if j == 0 {
      RuleExcluded(IconRules[0], lower, "nightsad", "oo");
    } else if j == 1 {
      RuleExcluded(IconRules[1], lower, "nightsad", "coeb");
    } else if j == 2 {
      RuleExcluded(IconRules[2], lower, "nightsad", "bm");
    } else {
      RuleExcluded(IconRules[3], lower, "nightsad", "bec");
    }
  }

  lemma LaterIconRowsExcluded(lower: string, j: int)
    requires forall i :: 0 <= i < |lower| ==> lower[i] in "nightsad"
    requires 4 <= j < 8
    ensures !RuleMatches(IconRules[j], lower)
  {
    if j == 4 {
      RuleExcluded(IconRules[4], lower, "nightsad", "ebb");
    } else if j == 5 {
      RuleExcluded(IconRules[5], lower, "nightsad", "wcce");
    } else if j == 6 {
      RuleExcluded(IconRules[6], lower, "nightsad", "llc");
    } else {
      RuleExcluded(IconRules[7], lower, "nightsad", "lrf");
    }
  }

  /** The same name falls in the bedroom row of `CATEGORY_MAP`, its second row. */
  lemma NightstandCategory()
    ensures CategoryOf("Nightstand") == "Bedroom"
  {
    var lower := Lower("Nightstand");
    assert lower == "nightstand";
    RuleExcluded(CategoryRules[0], lower, "nightsad", "oocobe");
    ContainsIff(lower, "nightstand");
    assert OccursAt(lower, "nightstand", 0);
    assert IsFirstMatch(CategoryRules, lower, 1);
  }
}
