/**
 * The page wiring between the add form and the store: the form's record
 * goes to the store's add handler, and its close request closes the modal.
 */
module Page {
  import opened Types
  import opened Store
  import opened AddMemoryModal

  /** One press of the save button while the modal is shown. */
  method SubmitToStore(form: Form, vault: Vault, id: string, date: int) returns (modalOpen: bool)
    modifies form, vault`memories, vault`storage
    ensures old(form.SubmitDisabled()) ==>
      modalOpen && unchanged(form) && vault.memories == old(vault.memories) && vault.storage == old(vault.storage)
    ensures !old(form.SubmitDisabled()) ==>
      !modalOpen &&
      vault.memories == [Memory(id, old(form.title), old(form.description), old(form.image).value,
                                date, CategoryName(old(form.category)))] + old(vault.memories)
    ensures !old(form.SubmitDisabled()) ==>
      form.title == "" && form.description == "" && form.image == None && form.category == DEFAULT_CATEGORY
    ensures !old(form.SubmitDisabled()) ==>
      vault.storage == if vault.isLoading then old(vault.storage)
                       else old(vault.storage)[VAULT_KEY := vault.codec.stringify(vault.memories)]
    ensures !old(form.SubmitDisabled()) ==> vault.Mirrored()
    ensures old(vault.Mirrored()) ==> vault.Mirrored()
  {
    var emitted, closed := form.Submit(id, date);
    if emitted.Some? {
      vault.Add(emitted.value);
    }
    modalOpen := !closed;
  }
}
