/** The record and the closed category set shared by the memory store and the add form. */
module Types {

  datatype Option<+T> = None | Some(value: T)

  /** The closed set of categories offered wherever the user picks one. */
  datatype Category = General | Travel | Family | Love | Milestone | Nature

  /** The string each category stands for; records carry categories as plain strings. */
  function CategoryName(c: Category): (name: string)
    ensures name != []
  {
    match c
    case General => "General"
    case Travel => "Travel"
    case Family => "Family"
    case Love => "Love"
    case Milestone => "Milestone"
    case Nature => "Nature"
  }

  /** The listing the category strips iterate over, in display order. */
  const CATEGORIES: seq<Category> := [General, Travel, Family, Love, Milestone, Nature]

  /** The category a new form starts with and returns to after a submit. */
  const DEFAULT_CATEGORY: Category := General

  /**
   * One journal entry. `date` is the creation instant as milliseconds since
   * the epoch; `category` is a plain string, so a record read back from
   * storage may carry a value outside CategoryName's range.
   */
  datatype Memory = Memory(
    id: string,
    title: string,
    description: string,
    imageUrl: string,
    date: int,
    category: string)

  /** The listing has six entries and names every category. */
  lemma CategoriesComplete(c: Category)
    ensures |CATEGORIES| == 6
    ensures c in CATEGORIES
    ensures DEFAULT_CATEGORY in CATEGORIES
  {
  }

  /** No category is listed twice: each occurs exactly once. */
  lemma CategoriesDistinct(c: Category)
    ensures forall i, j :: 0 <= i < j < |CATEGORIES| ==> CATEGORIES[i] != CATEGORIES[j]
    ensures multiset(CATEGORIES)[c] == 1
  {
  }

  /** Distinct categories are stored as distinct strings, so a stored string names at most one category. */
  lemma CategoryNameInjective(c: Category, d: Category)
    ensures CategoryName(c) == CategoryName(d) <==> c == d
  {
  }
}
