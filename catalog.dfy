/**
 * The model catalog (the global `MODELS`): the `.glb` files of the `models/` directory listing,
 * each with the name, icon and category derived from its file name, sorted by category and
 * then by name (`fetchModelsFromGitHub`).
 */
module Catalog {
  import opened Wrappers
  import opened Text
  import opened Naming

  /** One item of the directory listing: its `type` ("file", "dir", ...) and its `name`. */
  datatype DirEntry = DirEntry(kind: string, name: string)

  /** An element of `MODELS`. */
  datatype ModelDef = ModelDef(name: string, file: string, icon: string, category: string)

  /** `f.type === 'file' && f.name.toLowerCase().endsWith('.glb')` */
  predicate IsGlbFile(f: DirEntry)
  {
    f.kind == "file" && EndsWith(Lower(f.name), ".glb")
  }

  /** The `.glb` test of the listing filter agrees with the suffix that `fileToName` strips. */
  lemma GlbTestsAgree(name: string)
    ensures EndsWith(Lower(name), ".glb") == HasGlbSuffix(name)
  {
    if 4 <= |name| {
      assert Lower(name)[|name| - 4..] == [LowerChar(name[|name| - 4]), LowerChar(name[|name| - 3]),
                                         LowerChar(name[|name| - 2]), LowerChar(name[|name| - 1])];
    }
  }

  /** `files.filter(...)`: the `.glb` files of the listing, in listing order. */
  function GlbFiles(files: seq<DirEntry>): (r: seq<DirEntry>)
    ensures forall f :: f in r <==> f in files && IsGlbFile(f)
  {
    if files == [] then []
    else (if IsGlbFile(files[0]) then [files[0]] else []) + GlbFiles(files[1..])
  }

  /** The entry `glbFiles.map(...)` builds for a file. */
  function ModelFor(file: string): ModelDef
  {
    var name := FileToName(file);
    ModelDef(name, file, IconOf(name), CategoryOf(name))
  }

  function ModelsFor(files: seq<DirEntry>): seq<ModelDef>
  {
    seq(|files|, i requires 0 <= i < |files| => ModelFor(files[i].name))
  }

  // ------------------------------------------------------------------ order

  /**
   * The comparator of `MODELS.sort`: by category, then by name; `localeCompare` is taken
   * as the lexicographic order on code points.
   */
  predicate ModelLe(a: ModelDef, b: ModelDef)
  {
    StrLt(a.category, b.category) || (a.category == b.category && StrLe(a.name, b.name))
  }

  /** The comparator returns 0. */
  predicate SameKey(a: ModelDef, b: ModelDef)
  {
    a.category == b.category && a.name == b.name
  }

  lemma ModelLeReflexive(a: ModelDef, b: ModelDef)
    requires SameKey(a, b)
    ensures ModelLe(a, b)
  {
    StrLeReflexive(a.name);
  }

  lemma ModelLeTotal(a: ModelDef, b: ModelDef)
    ensures ModelLe(a, b) || ModelLe(b, a)
  {
    StrLeTotal(a.category, b.category);
    StrLeTotal(a.name, b.name);
  }

  lemma ModelLeAntisymmetric(a: ModelDef, b: ModelDef)
    requires ModelLe(a, b) && ModelLe(b, a)
    ensures SameKey(a, b)
  {
    if StrLt(a.category, b.category) || StrLt(b.category, a.category) {
      StrLeAntisymmetric(a.category, b.category);
    } else {
      StrLeAntisymmetric(a.name, b.name);
    }
  }

  lemma ModelLeTransitive(a: ModelDef, b: ModelDef, c: ModelDef)
    requires ModelLe(a, b) && ModelLe(b, c)
    ensures ModelLe(a, c)
  {
    if a.category == b.category && b.category == c.category {
      StrLeTransitive(a.name, b.name, c.name);
    } else {
      StrLeReflexive(a.category);
      StrLeReflexive(b.category);
      StrLeTransitive(a.category, b.category, c.category);
      if a.category == c.category {
        StrLeAntisymmetric(a.category, b.category);
      }
    }
  }

  predicate Sorted(s: seq<ModelDef>)
  {
    forall i, j :: 0 <= i < j < |s| ==> ModelLe(s[i], s[j])
  }

  /** Places `m` before the first element that does not sort strictly before it. */
  function Insert(m: ModelDef, s: seq<ModelDef>): seq<ModelDef>
  {
    if s == [] || ModelLe(m, s[0]) then [m] + s else [s[0]] + Insert(m, s[1..])
  }

  /** The stable sort that `MODELS.sort` performs with the comparator of `ModelLe`. */
  function SortModels(s: seq<ModelDef>): seq<ModelDef>
  {
    if s == [] then [] else Insert(s[0], SortModels(s[1..]))
  }

  lemma {:induction false} InsertPermutes(m: ModelDef, s: seq<ModelDef>)
    ensures multiset(Insert(m, s)) == multiset(s) + multiset{m}
  {
    if s != [] && !ModelLe(m, s[0]) {
      InsertPermutes(m, s[1..]);
      assert s == [s[0]] + s[1..];
    }
  }

  lemma {:induction false} InsertSorted(m: ModelDef, s: seq<ModelDef>)
    requires Sorted(s)
    ensures Sorted(Insert(m, s))
  {
    if s == [] {
    } else if ModelLe(m, s[0]) {
      forall j | 1 < j < |s| + 1 ensures ModelLe(m, ([m] + s)[j]) {
        ModelLeTransitive(m, s[0], s[j - 1]);
      }
    } else {
      var rest := Insert(m, s[1..]);
      InsertSorted(m, s[1..]);
      InsertPermutes(m, s[1..]);
      ModelLeTotal(m, s[0]);
      forall j | 0 <= j < |rest| ensures ModelLe(s[0], rest[j]) {
        assert rest[j] in multiset(s[1..]) + multiset{m};
        if rest[j] != m {
          var k :| 0 <= k < |s[1..]| && s[1..][k] == rest[j];
          assert ModelLe(s[0], s[k + 1]);
        }
      }
    }
  }

  /** `MODELS.sort(...)` leaves the models ordered by category, then name, and loses or adds none. */
  lemma {:induction false} SortModelsSpec(s: seq<ModelDef>)
    ensures Sorted(SortModels(s))
    ensures multiset(SortModels(s)) == multiset(s)
  {
    if s != [] {
      SortModelsSpec(s[1..]);
      InsertSorted(s[0], SortModels(s[1..]));
      InsertPermutes(s[0], SortModels(s[1..]));
      assert s == [s[0]] + s[1..];
    }
  }

  /** The elements of `s` that the comparator ties with `a`, in order. */
  function Ties(s: seq<ModelDef>, a: ModelDef): seq<ModelDef>
  {
    if s == [] then [] else (if SameKey(s[0], a) then [s[0]] else []) + Ties(s[1..], a)
  }

  lemma {:induction false} InsertTies(m: ModelDef, s: seq<ModelDef>, a: ModelDef)
    ensures Ties(Insert(m, s), a) == (if SameKey(m, a) then [m] else []) + Ties(s, a)
  {
    if s == [] || ModelLe(m, s[0]) {
      assert ([m] + s)[1..] == s;
    } else {
      InsertTies(m, s[1..], a);
      if SameKey(m, a) && SameKey(s[0], a) {
        ModelLeReflexive(m, s[0]);
      }
      assert ([s[0]] + Insert(m, s[1..]))[1..] == Insert(m, s[1..]);
    }
  }

  /** The sort is stable: models the comparator ties keep their listing order. */
  lemma {:induction false} SortModelsStable(s: seq<ModelDef>, a: ModelDef)
    ensures Ties(SortModels(s), a) == Ties(s, a)
  {
    if s != [] {
      SortModelsStable(s[1..], a);
      InsertTies(s[0], SortModels(s[1..]), a);
    }
  }

  // ---------------------------------------------------------------- catalog

  /** What `fetchModelsFromGitHub` assigns to `MODELS` for a listing. */
  function BuildCatalog(files: seq<DirEntry>): seq<ModelDef>
  {
    SortModels(ModelsFor(GlbFiles(files)))
  }

  /** Every catalog entry comes from a `.glb` file of the listing and is derived from its name. */
  lemma CatalogEntriesFromListing(files: seq<DirEntry>)
    ensures forall m :: m in BuildCatalog(files) ==>
      m == ModelFor(m.file) && DirEntry("file", m.file) in files && HasGlbSuffix(m.file)
  {
    var glb := GlbFiles(files);
    SortModelsSpec(ModelsFor(glb));
    forall m | m in BuildCatalog(files)
      ensures m == ModelFor(m.file) && DirEntry("file", m.file) in files && HasGlbSuffix(m.file)
    {
      assert m in multiset(ModelsFor(glb));
      var i :| 0 <= i < |glb| && ModelsFor(glb)[i] == m;
      assert glb[i] in glb;
      GlbTestsAgree(m.file);
    }
  }

  /** Every `.glb` file of the listing has its entry in the catalog. */
  lemma CatalogCoversListing(files: seq<DirEntry>)
    ensures forall f :: f in files && IsGlbFile(f) ==> ModelFor(f.name) in BuildCatalog(files)
  {
    var glb := GlbFiles(files);
    SortModelsSpec(ModelsFor(glb));
    forall f | f in files && IsGlbFile(f) ensures ModelFor(f.name) in BuildCatalog(files) {
      var i :| 0 <= i < |glb| && glb[i] == f;
      assert ModelsFor(glb)[i] == ModelFor(f.name);
      assert ModelFor(f.name) in multiset(BuildCatalog(files));
    }
  }

  /** The catalog is the listing's entries, ordered by category and then name. */
  lemma CatalogSorted(files: seq<DirEntry>)
    ensures Sorted(BuildCatalog(files))
    ensures multiset(BuildCatalog(files)) == multiset(ModelsFor(GlbFiles(files)))
  {
    SortModelsSpec(ModelsFor(GlbFiles(files)));
  }

  /** How a fetch ends; each case other than `Loaded` only shows a message. */
  datatype FetchOutcome = FetchFailed | NoGlbFiles | Loaded

  /** Holds `MODELS`, which starts empty and is replaced by each successful fetch. */
  class Catalog {
    var models: seq<ModelDef>

    constructor ()
      ensures models == []
    {
      models := [];
    }

    /**
     * `fetchModelsFromGitHub`, given the parsed listing, or `None` when the request failed,
     * the status was not OK or the body was not a listing (the `catch` branch).
     */
    method FetchModels(listing: Option<seq<DirEntry>>) returns (outcome: FetchOutcome)
      modifies this
      ensures listing.None? ==> outcome == FetchFailed && models == old(models)
      ensures listing.Some? && GlbFiles(listing.value) == [] ==>
        outcome == NoGlbFiles && models == old(models)
      ensures listing.Some? && GlbFiles(listing.value) != [] ==>
        outcome == Loaded && models == BuildCatalog(listing.value)
    {
      if listing.None? {
        return FetchFailed;
      }
      var glbFiles := GlbFiles(listing.value);
      if |glbFiles| == 0 {
        return NoGlbFiles;
      }
      models := ModelsFor(glbFiles);
      models := SortModels(models);
      return Loaded;
    }
  }
}
