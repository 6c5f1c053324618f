/**
 * The model list shown in the side panel (`buildModelItems`): the catalog models whose name
 * contains the search filter, grouped under their category, groups in order of first appearance.
 */
module ModelList {
  import opened Text
  import opened Catalog

  /** `!filter || m.name.toLowerCase().includes(filter.toLowerCase())`: the model is listed. */
  predicate Matches(m: ModelDef, filter: string)
  {
    filter == "" || Contains(Lower(m.name), Lower(filter))
  }

  /** The models the `forEach` does not skip, in catalog order. */
  function Kept(models: seq<ModelDef>, filter: string): seq<ModelDef>
  {
    if models == [] then []
    else
      var m := models[|models| - 1];
      Kept(models[..|models| - 1], filter) + (if Matches(m, filter) then [m] else [])
  }

  /** The models of category `c`, in order: what `groups[c]` collects. */
  function OfCategory(s: seq<ModelDef>, c: string): seq<ModelDef>
  {
    if s == [] then []
    else
      var m := s[|s| - 1];
      OfCategory(s[..|s| - 1], c) + (if m.category == c then [m] else [])
  }

  /** The categories of `s` in order of first appearance: `Object.keys(groups)`. */
  function Categories(s: seq<ModelDef>): seq<string>
  {
    if s == [] then []
    else
      var cats := Categories(s[..|s| - 1]);
      var c := s[|s| - 1].category;
      if c in cats then cats else cats + [c]
  }

  /** The index of the first model of category `c` in `s`, or `|s|` when there is none. */
  function FirstIndex(s: seq<ModelDef>, c: string): nat
  {
    if s == [] then 0 else if s[0].category == c then 0 else 1 + FirstIndex(s[1..], c)
  }

  datatype Group = Group(category: string, models: seq<ModelDef>)

  /** The fragment `buildModelItems` returns: the "No models found" message, or the groups. */
  datatype ModelList = NoModelsFound | Groups(groups: seq<Group>)

  function GroupsOf(s: seq<ModelDef>): seq<Group>
  {
    var cats := Categories(s);
    seq(|cats|, j requires 0 <= j < |cats| => Group(cats[j], OfCategory(s, cats[j])))
  }

  /** The list for the kept models `s`. */
  function Arrange(s: seq<ModelDef>): ModelList
  {
    if Categories(s) == [] then NoModelsFound else Groups(GroupsOf(s))
  }

  function Flatten(groups: seq<Group>): seq<ModelDef>
  {
    if groups == [] then [] else groups[0].models + Flatten(groups[1..])
  }

  lemma KeptStep(models: seq<ModelDef>, filter: string, i: nat)
    requires i < |models|
    ensures Matches(models[i], filter) ==> Kept(models[..i + 1], filter) == Kept(models[..i], filter) + [models[i]]
    ensures !Matches(models[i], filter) ==> Kept(models[..i + 1], filter) == Kept(models[..i], filter)
  {
    assert models[..i + 1][..i] == models[..i];
    assert Kept(models[..i], filter) + [] == Kept(models[..i], filter);
  }

  lemma CategoriesAppend(s: seq<ModelDef>, m: ModelDef)
    ensures Categories(s + [m]) == if m.category in Categories(s) then Categories(s) else Categories(s) + [m.category]
  {
    assert (s + [m])[..|s|] == s;
  }

  lemma OfCategoryAppend(s: seq<ModelDef>, m: ModelDef, c: string)
    ensures OfCategory(s + [m], c) == OfCategory(s, c) + (if m.category == c then [m] else [])
  {
    assert (s + [m])[..|s|] == s;
  }

  /** A category that does not appear among the categories has no models. */
  lemma {:induction false} AbsentCategoryEmpty(s: seq<ModelDef>, c: string)
    requires c !in Categories(s)
    ensures OfCategory(s, c) == []
  {
    if s != [] {
      AbsentCategoryEmpty(s[..|s| - 1], c);
    }
  }

  /**
   * The loop's `groups` map and its key list `cats` (in insertion order, as `Object.keys`
   * returns them) hold exactly the categories and per-category models of `kept`.
   */
  ghost predicate Collected(kept: seq<ModelDef>, cats: seq<string>, groups: map<string, seq<ModelDef>>)
  {
    cats == Categories(kept)
    && (forall c :: c in groups <==> c in cats)
    && (forall c :: c in groups ==> groups[c] == OfCategory(kept, c))
  }

  /** One kept model: create its category's entry if missing, then push the model onto it. */
  lemma CollectStep(kept: seq<ModelDef>, m: ModelDef, cats: seq<string>, groups: map<string, seq<ModelDef>>)
    requires Collected(kept, cats, groups)
    ensures var entry := if m.category in groups then groups[m.category] else [];
      Collected(kept + [m], if m.category in groups then cats else cats + [m.category],
                groups[m.category := entry + [m]])
  {
    CategoriesAppend(kept, m);
    if m.category !in groups {
      AbsentCategoryEmpty(kept, m.category);
    }
    var entry := if m.category in groups then groups[m.category] else [];
    var groups' := groups[m.category := entry + [m]];
    forall c | c in groups' ensures groups'[c] == OfCategory(kept + [m], c) {
      OfCategoryAppend(kept, m, c);
    }
  }

  /** The groups read back from the loop's map and key list are `GroupsOf(s)`. */
  lemma CollectedGroups(s: seq<ModelDef>, cats: seq<string>, groups: map<string, seq<ModelDef>>, built: seq<Group>)
    requires Collected(s, cats, groups)
    requires |built| == |cats|
    requires forall j :: 0 <= j < |cats| ==> built[j] == Group(cats[j], groups[cats[j]])
    ensures built == GroupsOf(s)
  {
  }

  /** `buildModelItems(filter, onClick)` over the catalog `models`, without the DOM. */
  method BuildModelItems(models: seq<ModelDef>, filter: string) returns (list: ModelList)
    ensures list == Arrange(Kept(models, filter))
  {
    var groups: map<string, seq<ModelDef>> := map[];
    var cats: seq<string> := [];
    ghost var kept: seq<ModelDef> := [];
    var i := 0;
    while i < |models|
      invariant 0 <= i <= |models|
      invariant kept == Kept(models[..i], filter)
      invariant Collected(kept, cats, groups)
    {
      var m := models[i];
      KeptStep(models, filter, i);
      if Matches(m, filter) {
        CollectStep(kept, m, cats, groups);
        if m.category !in groups {
          groups := groups[m.category := []];
          cats := cats + [m.category];
        }
        groups := groups[m.category := groups[m.category] + [m]];
        kept := kept + [m];
      }
      i := i + 1;
    }
    assert models[..|models|] == models;
    if |cats| == 0 {
      return NoModelsFound;
    }
    var built := seq(|cats|, j requires 0 <= j < |cats| => Group(cats[j], groups[cats[j]]));
    CollectedGroups(Kept(models, filter), cats, groups, built);
    return Groups(built);
  }

  // Properties of the listing

  /** A model is listed exactly when it is in the catalog and matches the filter. */
  lemma {:induction false} KeptMembers(models: seq<ModelDef>, filter: string, m: ModelDef)
    ensures m in Kept(models, filter) <==> m in models && Matches(m, filter)
  {
    if models != [] {
      var last := |models| - 1;
      KeptMembers(models[..last], filter, m);
      assert models == models[..last] + [models[last]];
    }
  }

  /** With an empty search box every model is listed, in catalog order. */
  lemma {:induction false} EmptyFilterKeepsAll(models: seq<ModelDef>)
    ensures Kept(models, "") == models
  {
    if models != [] {
      var last := |models| - 1;
      EmptyFilterKeepsAll(models[..last]);
      assert models == models[..last] + [models[last]];
    }
  }

  /** `groups[c]` holds exactly the models of `s` whose category is `c`. */
  lemma {:induction false} OfCategoryMembers(s: seq<ModelDef>, c: string, m: ModelDef)
    ensures m in OfCategory(s, c) <==> m in s && m.category == c
  {
    if s != [] {
      var last := |s| - 1;
      OfCategoryMembers(s[..last], c, m);
      assert s == s[..last] + [s[last]];
    }
  }

  /** Every category listed has a model of `s`, every model's category is listed, and none twice. */
  lemma {:induction false} CategoriesExact(s: seq<ModelDef>)
    ensures forall c :: c in Categories(s) <==> exists m :: m in s && m.category == c
    ensures forall i, j :: 0 <= i < j < |Categories(s)| ==> Categories(s)[i] != Categories(s)[j]
  {
    if s != [] {
      var last := |s| - 1;
      CategoriesExact(s[..last]);
      assert s == s[..last] + [s[last]];
    }
  }

  /** A non-empty list of models has at least one group. */
  lemma ArrangeEmpty(s: seq<ModelDef>)
    ensures Arrange(s) == NoModelsFound <==> s == []
  {
    if s != [] {
      var last := |s| - 1;
      assert s[last].category in Categories(s);
    }
  }

  lemma {:induction false} FirstIndexBound(s: seq<ModelDef>, c: string)
    ensures FirstIndex(s, c) <= |s|
    ensures FirstIndex(s, c) < |s| <==> exists m :: m in s && m.category == c
    ensures FirstIndex(s, c) < |s| ==> s[FirstIndex(s, c)].category == c
  {
    if s != [] && s[0].category != c {
      FirstIndexBound(s[1..], c);
      assert s == [s[0]] + s[1..];
    }
  }

  lemma {:induction false} FirstIndexAppend(s: seq<ModelDef>, m: ModelDef, c: string)
    ensures FirstIndex(s + [m], c)
         == if FirstIndex(s, c) < |s| || m.category == c then FirstIndex(s, c) else |s| + 1
  {
    if s == [] {
    } else if s[0].category != c {
      assert (s + [m])[1..] == s[1..] + [m];
      FirstIndexAppend(s[1..], m, c);
    }
  }

  /** The groups come in the order in which their categories first appear in the catalog. */
  lemma {:induction false} CategoriesInFirstAppearanceOrder(s: seq<ModelDef>)
    ensures forall c :: c in Categories(s) ==> FirstIndex(s, c) < |s|
    ensures forall i, j :: 0 <= i < j < |Categories(s)|
              ==> FirstIndex(s, Categories(s)[i]) < FirstIndex(s, Categories(s)[j])
  {
    if s != [] {
      var last := |s| - 1;
      var init, m := s[..last], s[last];
      assert s == init + [m];
      CategoriesInFirstAppearanceOrder(init);
      CategoriesExact(init);
      forall c | c in Categories(s)
        ensures FirstIndex(s, c) == if c in Categories(init) then FirstIndex(init, c) else |init|
      {
        FirstIndexAppend(init, m, c);
        FirstIndexBound(init, c);
      }
    }
  }

  /** The models of the categories `cats`, group after group. */
  function Collect(s: seq<ModelDef>, cats: seq<string>): seq<ModelDef>
  {
    if cats == [] then [] else OfCategory(s, cats[0]) + Collect(s, cats[1..])
  }

  predicate Distinct(cats: seq<string>)
  {
    forall i, j :: 0 <= i < j < |cats| ==> cats[i] != cats[j]
  }

  lemma DistinctTail(cats: seq<string>)
    requires Distinct(cats) && cats != []
    ensures Distinct(cats[1..]) && cats[0] !in cats[1..]
  {
    forall i, j | 0 <= i < j < |cats[1..]| ensures cats[1..][i] != cats[1..][j] {
      assert cats[1..][i] == cats[i + 1] && cats[1..][j] == cats[j + 1];
    }
  }

  lemma CollectCons(s: seq<ModelDef>, cats: seq<string>)
    requires cats != []
    ensures multiset(Collect(s, cats)) == multiset(OfCategory(s, cats[0])) + multiset(Collect(s, cats[1..]))
  {
  }

  lemma OfCategoryAppendCount(s: seq<ModelDef>, m: ModelDef, c: string)
    ensures multiset(OfCategory(s + [m], c))
         == multiset(OfCategory(s, c)) + if m.category == c then multiset{m} else multiset{}
  {
    OfCategoryAppend(s, m, c);
  }

  lemma {:induction false} CollectAppend(s: seq<ModelDef>, m: ModelDef, cats: seq<string>)
    requires Distinct(cats)
    ensures multiset(Collect(s + [m], cats))
         == multiset(Collect(s, cats)) + if m.category in cats then multiset{m} else multiset{}
  {
    if cats != [] {
      DistinctTail(cats);
      CollectAppend(s, m, cats[1..]);
      OfCategoryAppendCount(s, m, cats[0]);
      CollectCons(s, cats);
      CollectCons(s + [m], cats);
      InCons(cats, m.category);
    }
  }

  lemma InCons(cats: seq<string>, c: string)
    requires cats != []
    ensures c in cats <==> c == cats[0] || c in cats[1..]
  {
    assert cats == [cats[0]] + cats[1..];
  }

  lemma {:induction false} CollectAll(s: seq<ModelDef>, cats: seq<string>)
    requires Distinct(cats)
    requires forall m :: m in s ==> m.category in cats
    ensures multiset(Collect(s, cats)) == multiset(s)
  {
    if s == [] {
      CollectEmpty(cats);
    } else {
      var last := |s| - 1;
      var init, m := s[..last], s[last];
      assert s == init + [m];
      CollectAll(init, cats);
      CollectAppend(init, m, cats);
    }
  }

  lemma {:induction false} CollectEmpty(cats: seq<string>)
    ensures Collect([], cats) == []
  {
    if cats != [] {
      CollectEmpty(cats[1..]);
    }
  }

  lemma {:induction false} FlattenGroups(s: seq<ModelDef>, cats: seq<string>)
    ensures Flatten(seq(|cats|, j requires 0 <= j < |cats| => Group(cats[j], OfCategory(s, cats[j]))))
         == Collect(s, cats)
  {
    if cats != [] {
      var groups := seq(|cats|, j requires 0 <= j < |cats| => Group(cats[j], OfCategory(s, cats[j])));
      var rest := cats[1..];
      assert groups[1..] == seq(|rest|, j requires 0 <= j < |rest| => Group(rest[j], OfCategory(s, rest[j])));
      FlattenGroups(s, rest);
    }
  }

  /** Every listed model sits in exactly one group: the groups together are the listed models. */
  lemma GroupsPartition(s: seq<ModelDef>)
    ensures multiset(Flatten(GroupsOf(s))) == multiset(s)
  {
    CategoriesExact(s);
    FlattenGroups(s, Categories(s));
    CollectAll(s, Categories(s));
  }
}
