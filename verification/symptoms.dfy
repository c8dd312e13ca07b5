/**
 * The symptom-library page: the list of categories offered, the search and category filter,
 * the grouping of the filtered symptoms by category, who may edit a symptom, and what
 * submitting the form does. The page's React state is replaced by parameters and results.
 */
module SymptomLibrary {
  import opened Text
  import opened Wrappers
  import opened Collections

  /** A row of the symptom library; a global symptom belongs to no doctor and is shared by all. */
  datatype Symptom = Symptom(
    id: String,
    name: String,
    category: String,
    description: Option<String>,
    isGlobal: bool,
    doctorId: Option<String>)

  /** The categories every library offers, in the order the page lists them; the first is the form's default. */
  const DefaultCategories: seq<String> := [
    "General",
    "Head & Nervous System",
    "Respiratory",
    "Digestive",
    "Cardiovascular",
    "Urinary",
    "Skin",
    "Musculoskeletal",
    "Reproductive",
    "Mental & Emotional"
  ]

  // ---------------------------------------------------------------------------
  // allCategories: `[...new Set([...DEFAULT_CATEGORIES, ...categories])].sort()`
  // ---------------------------------------------------------------------------

  /** Every earlier element is below every later one in code-unit order; in particular no element repeats. */
  predicate StrictlySorted(xs: seq<String>) {
    forall i, j :: 0 <= i < j < |xs| ==> Less(xs[i], xs[j])
  }

  /** Adds `x` to a sorted list of distinct strings unless it is already there. */
  function InsertSorted(xs: seq<String>, x: String): seq<String> {
    if xs == [] then [x]
    else if x == xs[0] then xs
    else if Less(x, xs[0]) then [x] + xs
    else [xs[0]] + InsertSorted(xs[1..], x)
  }

  /** `[...new Set(items)].sort()`: the distinct items, sorted. */
  function SortedSet(items: seq<String>): seq<String> {
    if items == [] then [] else InsertSorted(SortedSet(items[..|items| - 1]), items[|items| - 1])
  }

  /** `allCategories`: the default categories together with the loaded ones. */
  function AllCategories(loaded: seq<String>): seq<String> {
    SortedSet(DefaultCategories + loaded)
  }

  /** Inserting keeps the list sorted and adds exactly `x`. */
  lemma {:induction false} InsertSortedSpec(xs: seq<String>, x: String)
    requires StrictlySorted(xs)
    ensures StrictlySorted(InsertSorted(xs, x))
    ensures forall y :: y in InsertSorted(xs, x) <==> y in xs || y == x
  {
    if xs != [] && x != xs[0] {
      if Less(x, xs[0]) {
        var r := [x] + xs;
        forall i, j | 0 <= i < j < |r| ensures Less(r[i], r[j]) {
          if i == 0 && j > 1 {
            LessTransitive(x, xs[0], xs[j - 1]);
          }
        }
      } else {
        LessTotal(x, xs[0]);
        InsertSortedSpec(xs[1..], x);
        var rest := InsertSorted(xs[1..], x);
        var r := [xs[0]] + rest;
        forall i, j | 0 <= i < j < |r| ensures Less(r[i], r[j]) {
          if i == 0 {
            assert r[j] == rest[j - 1] && r[j] in rest;
          }
        }
        assert xs == [xs[0]] + xs[1..];
      }
    }
  }

  /** The sorted set is sorted and holds exactly the items. */
  lemma {:induction false} SortedSetSpec(items: seq<String>)
    ensures StrictlySorted(SortedSet(items))
    ensures forall y :: y in SortedSet(items) <==> y in items
  {
    if items != [] {
      var init := items[..|items| - 1];
      SortedSetSpec(init);
      InsertSortedSpec(SortedSet(init), items[|items| - 1]);
      assert items == init + [items[|items| - 1]];
    }
  }

  /** The category list is sorted, has no duplicates, and holds every default and every loaded category and nothing else. */
  lemma {:induction false} AllCategoriesSpec(loaded: seq<String>)
    ensures StrictlySorted(AllCategories(loaded))
    ensures forall c :: c in AllCategories(loaded) <==> c in DefaultCategories || c in loaded
  {
    SortedSetSpec(DefaultCategories + loaded);
  }

  /** A sorted list of distinct strings is determined by its elements, so any way of sorting the set gives this list. */
  lemma {:induction false} StrictlySortedUnique(a: seq<String>, b: seq<String>)
    requires StrictlySorted(a) && StrictlySorted(b)
    requires forall y :: y in a <==> y in b
    ensures a == b
  {
    if a != [] {
      assert a[0] in a;
    }
    if b != [] {
      assert b[0] in b;
    }
    if a != [] && b != [] {
      if a[0] != b[0] {
        var i :| 0 <= i < |b| && b[i] == a[0];
        var j :| 0 <= j < |a| && a[j] == b[0];
        LessAsymmetric(b[0], a[0]);
        assert false;
      }
      forall y ensures y in a[1..] <==> y in b[1..] {
        if y in a[1..] {
          var k :| 1 <= k < |a| && a[k] == y;
          LessIrreflexive(a[0]);
          assert y != a[0];
          assert y in b;
        }
        if y in b[1..] {
          var k :| 1 <= k < |b| && b[k] == y;
          LessIrreflexive(b[0]);
          assert y != b[0];
          assert y in a;
        }
      }
      StrictlySortedUnique(a[1..], b[1..]);
      assert a == [a[0]] + a[1..] && b == [b[0]] + b[1..];
    }
  }

  // ---------------------------------------------------------------------------
  // filteredSymptoms
  // ---------------------------------------------------------------------------

  /**
   * The search test: the lower-cased name, or the lower-cased description when there is one,
   * contains the lower-cased query.
   */
  predicate MatchesSearch(s: Symptom, query: String) {
    Contains(Lower(s.name), Lower(query))
    || (s.description.Some? && Contains(Lower(s.description.value), Lower(query)))
  }

  /** The category test: the selection is the literal `all`, or the symptom's category. */
  predicate MatchesCategory(s: Symptom, selected: String) {
    selected == "all" || s.category == selected
  }

  predicate Shown(s: Symptom, query: String, selected: String) {
    MatchesSearch(s, query) && MatchesCategory(s, selected)
  }

  /** `filteredSymptoms`. */
  function FilterSymptoms(symptoms: seq<Symptom>, query: String, selected: String): seq<Symptom> {
    Filter(symptoms, s => Shown(s, query, selected))
  }

  /** A symptom is listed exactly when it passes both tests, as often as it is loaded, and in the loaded order. */
  lemma {:induction false} FilterSymptomsSpec(symptoms: seq<Symptom>, query: String, selected: String)
    ensures forall s :: s in FilterSymptoms(symptoms, query, selected) <==>
      s in symptoms && MatchesSearch(s, query) && MatchesCategory(s, selected)
    ensures forall s :: s in symptoms && Shown(s, query, selected) ==>
      multiset(FilterSymptoms(symptoms, query, selected))[s] == multiset(symptoms)[s]
    ensures IsSubsequence(FilterSymptoms(symptoms, query, selected), symptoms)
  {
    FilterMembers(symptoms, s => Shown(s, query, selected));
    forall s | s in symptoms && Shown(s, query, selected)
      ensures multiset(FilterSymptoms(symptoms, query, selected))[s] == multiset(symptoms)[s]
    {
      FilterCounts(symptoms, s => Shown(s, query, selected), s);
    }
    FilterIsSubsequence(symptoms, s => Shown(s, query, selected));
  }

  /** An empty search matches every name, so only the category decides. */
  lemma {:induction false} EmptyQueryMatchesAll(s: Symptom)
    ensures MatchesSearch(s, [])
  {
    ContainsEmpty(Lower(s.name));
  }

  /** With an empty search and the selection `all`, every symptom is listed. */
  lemma {:induction false} NoFilterShowsAll(symptoms: seq<Symptom>)
    ensures FilterSymptoms(symptoms, [], "all") == symptoms
  {
    forall i | 0 <= i < |symptoms| ensures Shown(symptoms[i], [], "all") {
      EmptyQueryMatchesAll(symptoms[i]);
    }
    FilterKeepsAll(symptoms, s => Shown(s, [], "all"));
  }

  /** The search ignores the case of ASCII letters in the query. */
  lemma {:induction false} SearchIgnoresQueryCase(s: Symptom, query: String)
    ensures MatchesSearch(s, Lower(query)) <==> MatchesSearch(s, query)
  {
    LowerIdempotent(query);
  }

  // ---------------------------------------------------------------------------
  // groupedSymptoms: a `reduce` that creates a key on first sight and pushes onto it
  // ---------------------------------------------------------------------------

  /** The symptoms of one category, in list order. */
  function Group(xs: seq<Symptom>, c: String): seq<Symptom> {
    Filter(xs, (s: Symptom) => s.category == c)
  }

  /** The categories in the order they first occur: the key order of the accumulator object. */
  function Categories(xs: seq<Symptom>): seq<String> {
    if xs == [] then []
    else
      var keys := Categories(xs[..|xs| - 1]);
      var c := xs[|xs| - 1].category;
      if c in keys then keys else keys + [c]
  }

  /**
   * The property names a plain object literal inherits from `Object.prototype`.
   * For such a category `acc[category]` is already truthy (a function, or the
   * prototype itself), no array is created, and the `push` that follows throws.
   */
  const InheritedKeys: set<String> := {
    "constructor", "hasOwnProperty", "isPrototypeOf", "propertyIsEnumerable",
    "toString", "toLocaleString", "valueOf", "__proto__",
    "__defineGetter__", "__defineSetter__", "__lookupGetter__", "__lookupSetter__"}

  predicate InheritedKey(c: String) {
    c in InheritedKeys
  }

  /** No symptom of `xs` has an inherited key as its category. */
  predicate NoInheritedKey(xs: seq<Symptom>) {
    forall k :: 0 <= k < |xs| ==> !InheritedKey(xs[k].category)
  }

  /** `groups` and `keys` are the accumulator after the symptoms `xs`: one group per category, in first-appearance order. */
  ghost predicate GroupedAs(xs: seq<Symptom>, groups: map<String, seq<Symptom>>, keys: seq<String>) {
    && keys == Categories(xs)
    && (forall c :: c in groups <==> c in keys)
    && (forall c :: c in groups ==> groups[c] == Group(xs, c))
  }

  /**
   * `groupedSymptoms`: the accumulator as a map, with the order in which its keys were created.
   * `failed` is the `TypeError` the reduce throws at the first symptom whose category is an
   * inherited key; the groups are only meaningful when it is not raised.
   */
  method GroupByCategory(symptoms: seq<Symptom>) returns (groups: map<String, seq<Symptom>>, keys: seq<String>, failed: bool)
    ensures failed <==> !NoInheritedKey(symptoms)
    ensures !failed ==> keys == Categories(symptoms)
    ensures !failed ==> forall c :: c in groups <==> c in keys
    ensures !failed ==> forall c :: c in groups ==> groups[c] == Group(symptoms, c)
  {
    groups, keys, failed := map[], [], false;
    var i := 0;
    while i < |symptoms|
      invariant 0 <= i <= |symptoms|
      invariant NoInheritedKey(symptoms[..i])
      invariant GroupedAs(symptoms[..i], groups, keys)
    {
      var s := symptoms[i];
      if InheritedKey(s.category) {
        failed := true;
        return;
      }
      assert symptoms[..i + 1] == symptoms[..i] + [s];
      groups, keys := AddToGroup(groups, keys, symptoms[..i], s);
      i := i + 1;
    }
    assert symptoms[..i] == symptoms;
  }

  /** The body of the reduce callback for a category that is not an inherited name (on those it throws): create the category's array if it is missing, then push. */
  method AddToGroup(groups: map<String, seq<Symptom>>, keys: seq<String>, ghost seen: seq<Symptom>, s: Symptom)
    returns (groups': map<String, seq<Symptom>>, keys': seq<String>)
    requires !InheritedKey(s.category)
    requires GroupedAs(seen, groups, keys)
    ensures GroupedAs(seen + [s], groups', keys')
  {
    groups', keys' := groups, keys;
    assert (seen + [s])[..|seen|] == seen;
    if s.category !in groups' {
      CategoriesSpec(seen);
      GroupOfAbsent(seen, s.category);
      groups' := groups'[s.category := []];
      keys' := keys' + [s.category];
    }
    forall c | c in groups' ensures Group(seen + [s], c) == Group(seen, c) + (if s.category == c then [s] else []) {
      GroupSnoc(seen, s, c);
    }
    groups' := groups'[s.category := groups'[s.category] + [s]];
  }

  /** A group grows by the new symptom exactly when it is that symptom's category. */
  lemma {:induction false} GroupSnoc(xs: seq<Symptom>, s: Symptom, c: String)
    ensures Group(xs + [s], c) == Group(xs, c) + (if s.category == c then [s] else [])
  {
    FilterSnoc(xs, s, (s: Symptom) => s.category == c);
  }

  /** A category no symptom has has an empty group. */
  lemma {:induction false} GroupOfAbsent(xs: seq<Symptom>, c: String)
    requires forall k :: 0 <= k < |xs| ==> xs[k].category != c
    ensures Group(xs, c) == []
  {
    FilterKeepsNone(xs, (s: Symptom) => s.category == c);
  }

  /** Some symptom of `xs` has category `c`. */
  predicate HasCategory(xs: seq<Symptom>, c: String) {
    exists k :: 0 <= k < |xs| && xs[k].category == c
  }

  /** The keys are exactly the categories that occur, each once. */
  lemma {:induction false} CategoriesSpec(xs: seq<Symptom>)
    ensures forall c :: c in Categories(xs) <==> HasCategory(xs, c)
    ensures forall i, j :: 0 <= i < j < |Categories(xs)| ==> Categories(xs)[i] != Categories(xs)[j]
  {
    if xs != [] {
      var init := xs[..|xs| - 1];
      CategoriesSpec(init);
      forall c ensures HasCategory(xs, c) <==> HasCategory(init, c) || c == xs[|xs| - 1].category {
        if HasCategory(xs, c) {
          var k :| 0 <= k < |xs| && xs[k].category == c;
          if k < |init| {
            assert init[k] == xs[k];
          }
        }
        if HasCategory(init, c) {
          var k :| 0 <= k < |init| && init[k].category == c;
          assert xs[k] == init[k];
        }
      }
    }
  }

  /** Every symptom lies in the group of its own category and in no other. */
  lemma {:induction false} ExactlyOneGroup(xs: seq<Symptom>, s: Symptom, c: String)
    requires s in xs
    ensures s in Group(xs, c) <==> c == s.category
  {
    FilterMembers(xs, (s: Symptom) => s.category == c);
  }

  /** Each group keeps the symptoms of its category in list order. */
  lemma {:induction false} GroupKeepsOrder(xs: seq<Symptom>, c: String)
    ensures IsSubsequence(Group(xs, c), xs)
    ensures forall s :: s in Group(xs, c) <==> s in xs && s.category == c
  {
    FilterIsSubsequence(xs, (s: Symptom) => s.category == c);
    FilterMembers(xs, (s: Symptom) => s.category == c);
  }

  /** The sizes of the groups named in `keys`. */
  function GroupSizes(xs: seq<Symptom>, keys: seq<String>): nat {
    if keys == [] then 0 else GroupSizes(xs, keys[..|keys| - 1]) + |Group(xs, keys[|keys| - 1])|
  }

  /** Adding a symptom adds one to the sizes of distinct keys when its category is among them. */
  lemma {:induction false} GroupSizesSnoc(xs: seq<Symptom>, s: Symptom, keys: seq<String>)
    requires forall i, j :: 0 <= i < j < |keys| ==> keys[i] != keys[j]
    ensures GroupSizes(xs + [s], keys) == GroupSizes(xs, keys) + (if s.category in keys then 1 else 0)
  {
    if keys != [] {
      var init := keys[..|keys| - 1];
      var last := keys[|keys| - 1];
      GroupSizesSnoc(xs, s, init);
      GroupSnoc(xs, s, last);
      assert keys == init + [last];
      assert s.category in keys <==> s.category in init || s.category == last;
      if s.category == last {
        assert s.category !in init by {
          forall i | 0 <= i < |init| ensures init[i] != last {
            assert keys[i] == init[i];
          }
        }
      }
    }
  }

  /** The group sizes add up to the number of symptoms grouped. */
  lemma {:induction false} GroupSizesSum(xs: seq<Symptom>)
    ensures GroupSizes(xs, Categories(xs)) == |xs|
  {
    if xs != [] {
      var init := xs[..|xs| - 1];
      var s := xs[|xs| - 1];
      assert xs == init + [s];
      GroupSizesSum(init);
      CategoriesSpec(init);
      GroupSizesSnoc(init, s, Categories(init));
      if s.category !in Categories(init) {
        GroupOfAbsent(init, s.category);
        GroupSnoc(init, s, s.category);
        assert Categories(xs) == Categories(init) + [s.category];
        assert Categories(xs)[..|Categories(xs)| - 1] == Categories(init);
      }
    }
  }

  // ---------------------------------------------------------------------------
  // canEdit, the add form and submit
  // ---------------------------------------------------------------------------

  /**
   * The doctor identifier the page holds: still loading (`undefined`), no doctor profile
   * for the signed-in user (`null`), or the doctor's identifier.
   */
  datatype Viewer = Pending | NoProfile | Doctor(id: String)

  /** `canEdit`: not global, and `doctor_id === doctorId` with JavaScript's strict equality. */
  predicate CanEdit(s: Symptom, viewer: Viewer) {
    !s.isGlobal &&
    match viewer
    case Pending => false
    case NoProfile => s.doctorId.None?
    case Doctor(id) => s.doctorId == Some(id)
  }

  /** A doctor may edit exactly the non-global symptoms that are theirs; a global symptom nobody may edit. */
  lemma {:induction false} CanEditIff(s: Symptom, id: String)
    ensures CanEdit(s, Doctor(id)) <==> !s.isGlobal && s.doctorId == Some(id)
    ensures s.isGlobal ==> forall v :: !CanEdit(s, v)
  {
  }

  /** While the doctor's identifier is loading nothing is editable; without a profile only non-global rows without an owner are. */
  lemma {:induction false} CanEditWithoutDoctor(s: Symptom)
    ensures !CanEdit(s, Pending)
    ensures CanEdit(s, NoProfile) <==> !s.isGlobal && s.doctorId.None?
  {
  }

  /** The form's fields. */
  datatype FormData = FormData(name: String, category: String, description: String)

  /** The page's form state: the symptom being edited if any, the fields, and whether the dialog is open. */
  datatype FormState = FormState(editing: Option<Symptom>, data: FormData, open: bool)

  /** `openAddForm`. */
  function OpenAddForm(): FormState {
    FormState(None, FormData("", DefaultCategories[0], ""), true)
  }

  /** A new symptom starts in the first default category, `General`, with empty name and description. */
  lemma {:induction false} AddFormDefaults()
    ensures OpenAddForm().data == FormData("", "General", "")
    ensures OpenAddForm().editing.None? && OpenAddForm().open
    ensures OpenAddForm().data.category in DefaultCategories
  {
  }

  /** `openEditForm`: the dialog opens on the symptom's own fields, a missing description as empty text. */
  function OpenEditForm(s: Symptom): FormState {
    FormState(Some(s), FormData(s.name, s.category, if s.description.Some? then s.description.value else ""), true)
  }

  /** What submitting asks the store to do. */
  datatype SubmitAction = NoAction | Update(id: String, data: FormData) | Create(data: FormData)

  /** `handleSubmit`: nothing when the name trims to empty, else update the edited symptom or create one, and close. */
  function Submit(form: FormState): (FormState, SubmitAction) {
    if Trim(form.data.name) == [] then (form, NoAction)
    else if form.editing.Some? then (form.(open := false), Update(form.editing.value.id, form.data))
    else (form.(open := false), Create(form.data))
  }

  /**
   * A name made only of white space does nothing and leaves the dialog open; any other name
   * closes it and updates the symptom being edited, with the form's fields, or creates one.
   */
  lemma {:induction false} SubmitSpec(form: FormState)
    ensures Submit(form).1 == NoAction <==> IsBlank(form.data.name)
    ensures Submit(form).1 == NoAction ==> Submit(form).0 == form
    ensures !IsBlank(form.data.name) ==> !Submit(form).0.open
    ensures !IsBlank(form.data.name) && form.editing.Some? ==>
      Submit(form).1 == Update(form.editing.value.id, form.data)
    ensures !IsBlank(form.data.name) && form.editing.None? ==> Submit(form).1 == Create(form.data)
  {
    TrimEmptyIffBlank(form.data.name);
  }

  /**
   * Editing a symptom whose name is not blank and submitting the form unchanged asks the store
   * to update that symptom with its own fields; a blank name leaves the dialog open and asks nothing.
   */
  lemma {:induction false} EditThenSubmit(s: Symptom)
    ensures var d := FormData(s.name, s.category, if s.description.Some? then s.description.value else "");
      Submit(OpenEditForm(s)) == if IsBlank(s.name) then (OpenEditForm(s), NoAction)
        else (FormState(Some(s), d, false), Update(s.id, d))
  {
    TrimEmptyIffBlank(s.name);
  }
}
