/**
 * The add-memory form: its four fields, the handlers that set them, and
 * the submit handler that turns a complete form into a record and resets.
 * The clock readings that give a new record its id and date are parameters.
 */
module AddMemoryModal {
  import opened Types

  class Form {
    var title: string
    var description: string
    var category: Category
    var image: Option<string>

    /** A fresh form: empty text, no image, the default category. */
    constructor ()
      ensures title == "" && description == "" && image == None
      ensures category == DEFAULT_CATEGORY
    {
      title := "";
      description := "";
      category := DEFAULT_CATEGORY;
      image := None;
    }

    /**
     * The save button is disabled while the title is empty or there is no
     * image; an empty image text counts as no image.
     */
    predicate SubmitDisabled()
      reads this
    {
      title == "" || image == None || image == Some("")
    }

    /** Typing into the title field. */
    method SetTitle(text: string)
      modifies this`title
      ensures title == text
    {
      title := text;
    }

    /** Typing into the description field. */
    method SetDescription(text: string)
      modifies this`description
      ensures description == text
    {
      description := text;
    }

    /** Pressing one of the category buttons, which exist only for the listed categories. */
    method PickCategory(c: Category)
      modifies this`category
      ensures category == c && category in CATEGORIES
    {
      category := c;
    }

    /**
     * The image reader finishing: the selected file's data URL becomes the
     * image, and a failed or aborted read (no result) clears it.
     */
    method ImageLoaded(result: Option<string>)
      modifies this`image
      ensures image == result
      ensures result == None ==> SubmitDisabled()
    {
      image := result;
    }

    /**
     * Submitting. An incomplete form (no title, or no image) emits nothing
     * and keeps its fields. A complete one emits exactly one record built
     * from its fields, with id and date from the clock, then resets and asks
     * to be closed.
     */
    method Submit(id: string, date: int) returns (emitted: Option<Memory>, closed: bool)
      modifies this
      ensures emitted.None? <==> old(SubmitDisabled())
      ensures emitted.None? ==> !closed && unchanged(this)
      ensures emitted.Some? ==> emitted.value == Memory(
        id, old(title), old(description), old(image).value, date, CategoryName(old(category)))
      ensures emitted.Some? ==> emitted.value.title != [] && emitted.value.imageUrl != []
      ensures emitted.Some? ==> exists c :: c in CATEGORIES && emitted.value.category == CategoryName(c)
      ensures emitted.Some? ==> closed && title == "" && description == "" && image == None
      ensures emitted.Some? ==> category == DEFAULT_CATEGORY
    {
      if title == "" || image == None || image.value == "" {
        return None, false;
      }
      emitted := Some(Memory(id, title, description, image.value, date, CategoryName(category)));
      assert category in CATEGORIES;
      title := "";
      description := "";
      image := None;
      category := DEFAULT_CATEGORY;
      closed := true;
    }
  }
}
