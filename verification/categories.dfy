/** The event category table and the per-browser colour overrides layered on
    it (src/config/categories.ts). */
module Categories {
  import opened Wrappers
  import Lookup

  datatype Category = Category(value: string, labelText: string, color: string, icon: string)

  function CategoryValue(c: Category): string {
    c.value
  }

  const EventCategories: seq<Category> := [
    Category("work", "Work", "#3B82F6", "💼"),
    Category("personal", "Personal", "#10B981", "👤"),
    Category("health", "Health", "#EF4444", "🏥"),
    Category("social", "Social", "#F59E0B", "👥"),
    Category("travel", "Travel", "#8B5CF6", "✈️"),
    Category("education", "Education", "#06B6D4", "📚"),
    Category("finance", "Finance", "#84CC16", "💰"),
    Category("hobby", "Hobby", "#F97316", "🎨"),
    Category("family", "Family", "#EC4899", "👨‍👩‍👧‍👦"),
    Category("other", "Other", "#6B7280", "📝")
  ]

  /** The colour and icon used for a category value the table does not know. */
  const FallbackColor: string := "#6B7280"
  const FallbackIcon: string := "📝"

  /** The category the create dialog starts with. */
  const DefaultCategory: string := "personal"

  predicate IsKnownCategory(value: string) {
    exists i :: 0 <= i < |EventCategories| && EventCategories[i].value == value
  }

  /** No two table entries share a value. */
  lemma CategoryValuesDistinct()
    ensures Lookup.KeysDistinct(EventCategories, CategoryValue)
  {
  }

  /** `getCategoryByValue`: the table entry with that value, if any. */
  function CategoryByValue(value: string): (r: Option<Category>)
    ensures r.Some? ==> r.value.value == value && r.value in EventCategories
    ensures r.Some? <==> IsKnownCategory(value)
  {
    Lookup.FindBy(EventCategories, CategoryValue, value)
  }

  /** Looking up the value of the i-th entry finds exactly that entry: values
      are unique, so a lookup can never pick a different one. */
  lemma CategoryByValueExact(i: nat)
    requires i < |EventCategories|
    ensures CategoryByValue(EventCategories[i].value) == Some(EventCategories[i])
  {
    CategoryValuesDistinct();
    Lookup.FindByUnique(EventCategories, CategoryValue, i);
  }

  /** No category value is the empty string. */
  lemma CategoryValuesNonEmpty(i: nat)
    requires i < |EventCategories|
    ensures EventCategories[i].value != ""
  {
  }

  /** `getCategoryColor`: the table colour of a known category, the grey
      fallback otherwise. */
  function CategoryColor(value: string): (r: string)
    ensures forall i :: 0 <= i < |EventCategories| && EventCategories[i].value == value
                        ==> r == EventCategories[i].color
    ensures !IsKnownCategory(value) ==> r == FallbackColor
  {
    var c := CategoryByValue(value);
    if c.Some? then
      CategoryColorOfKnown(value, c.value);
      c.value.color
    else FallbackColor
  }

  /** `getCategoryIcon`: the table icon of a known category, the memo icon
      otherwise. */
  function CategoryIcon(value: string): (r: string)
    ensures forall i :: 0 <= i < |EventCategories| && EventCategories[i].value == value
                        ==> r == EventCategories[i].icon
    ensures !IsKnownCategory(value) ==> r == FallbackIcon
  {
    var c := CategoryByValue(value);
    if c.Some? then
      CategoryColorOfKnown(value, c.value);
      c.value.icon
    else FallbackIcon
  }

  lemma CategoryColorOfKnown(value: string, c: Category)
    requires CategoryByValue(value) == Some(c)
    ensures forall i :: 0 <= i < |EventCategories| && EventCategories[i].value == value
                        ==> c == EventCategories[i]
  {
    forall i | 0 <= i < |EventCategories| && EventCategories[i].value == value
      ensures c == EventCategories[i]
    {
      CategoryByValueExact(i);
    }
  }

  /** An unknown category looks exactly like "other": same colour, same icon. */
  lemma UnknownCategoryLooksLikeOther(value: string)
    requires !IsKnownCategory(value)
    ensures CategoryColor(value) == CategoryColor("other")
    ensures CategoryIcon(value) == CategoryIcon("other")
  {
    assert EventCategories[9].value == "other";
  }

  // ---------------------------------------------------------------------------
  // custom colours kept in the browser's storage
  // ---------------------------------------------------------------------------

  /** The storage key the overrides live under. */
  const CustomColorsKey: string := "schedura-category-colors"

  /** What reading the overrides can meet: no browser at all (server-side
      rendering), nothing stored under the key, a stored value that cannot be
      read back (storage or JSON errors), or a stored object of overrides. */
  datatype ColorStore = NoWindow | Unset | Unreadable | Stored(colors: map<string, string>)

  /** `getCustomCategoryColors`: the stored overrides; every failure yields the
      empty map. */
  function CustomColors(store: ColorStore): (m: map<string, string>)
    ensures store.Stored? ==> m == store.colors
    ensures !store.Stored? ==> m == map[]
  {
    match store
    case Stored(colors) => colors
    case _ => map[]
  }

  /** `setCustomCategoryColor(category, color)`: with a browser, the current
      overrides (empty if unreadable) get `category` set to `color` and are
      written back; a failing write (`writeFails`) leaves storage as it was. */
  function SetCustomColor(store: ColorStore, category: string, color: string, writeFails: bool)
    : (r: ColorStore)
    ensures store.NoWindow? || writeFails ==> r == store
    ensures !store.NoWindow? && !writeFails ==>
      && r.Stored?
      && category in r.colors && r.colors[category] == color
      && r.colors.Keys == CustomColors(store).Keys + {category}
      && forall k :: k in CustomColors(store) && k != category
                     ==> r.colors[k] == CustomColors(store)[k]
  {
    if store.NoWindow? || writeFails then store
    else Stored(CustomColors(store)[category := color])
  }

  /** `getCategoryColorWithCustom`: a non-empty override wins; a missing or
      empty override (both falsy to `||`) falls back to the table colour. */
  function ColorWithCustom(store: ColorStore, value: string): (r: string)
    ensures value in CustomColors(store) && CustomColors(store)[value] != ""
            ==> r == CustomColors(store)[value]
    ensures value !in CustomColors(store) || CustomColors(store)[value] == ""
            ==> r == CategoryColor(value)
  {
    var m := CustomColors(store);
    if value in m && m[value] != "" then m[value] else CategoryColor(value)
  }

  /** Setting a non-empty override and reading the colour back gives the
      override; the other categories keep the colour they had. */
  lemma SetThenReadColor(store: ColorStore, category: string, color: string, other: string)
    requires !store.NoWindow?
    requires color != ""
    requires other != category
    ensures ColorWithCustom(SetCustomColor(store, category, color, false), category) == color
    ensures ColorWithCustom(SetCustomColor(store, category, color, false), other)
            == ColorWithCustom(store, other)
  {
  }

  /** An override of "" hides nothing: the table colour shows through. */
  lemma EmptyOverrideFallsBack(store: ColorStore, category: string)
    requires !store.NoWindow?
    ensures ColorWithCustom(SetCustomColor(store, category, "", false), category)
            == CategoryColor(category)
  {
  }
}
